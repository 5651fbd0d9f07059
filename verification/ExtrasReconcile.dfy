/** extras/extras.go, reconciling: custom routes, ip rules and POSTROUTING rules of one interface. */
module ExtrasReconcile {
  import opened Text
  import opened Host
  import opened Types
  import opened Counts
  import opened ExtrasParser

  /** How many copies one cleanup loop deletes at most. */
  const CLEANUP := 8

  // ---- what the lines stand for -----------------------------------------------------------------

  /** The accepted lines, parsed, in order. */
  function Parsed(parse: string -> Option<Argv>, lines: seq<string>): seq<Argv> {
    if lines == [] then [] else
      var last := parse(lines[|lines| - 1]);
      Parsed(parse, lines[..|lines| - 1]) + if last.Some? then [last.value] else []
  }

  function RouteList(lines: seq<string>): seq<Argv> { Parsed(RouteCommand, Kept(lines)) }

  function RuleList(lines: seq<string>): seq<Argv> { Parsed(RuleOf, Kept(lines)) }

  function NatList(lines: seq<string>): seq<Argv> { Parsed(NatOf, Kept(lines)) }

  function RuleEntry(args: Argv): Argv { ["rule", "add"] + args }

  function NatRule(args: Argv): Rule { Rule("nat", "POSTROUTING", args) }

  /** The words of an `ip rule` entry. */
  function EntryArgs(k: Argv): Option<Argv> {
    if |k| >= 2 && k[..2] == ["rule", "add"] then Some(k[2..]) else None
  }

  function Copies(list: seq<Argv>, a: Option<Argv>): nat {
    if a.None? then 0 else multiset(list)[a.value]
  }

  /** What one pass does to the copies of an ip rule: each line that wants it deletes up to eight
      copies and adds one; when no line wants it, each old line deletes up to eight copies. */
  function RuleTouch(before: seq<string>, after: seq<string>, k: Argv): Touch {
    var wanted := Copies(RuleList(after), EntryArgs(k));
    if wanted > 0 then Touch((CLEANUP - 1) * wanted, true)
    else Touch(CLEANUP * Copies(RuleList(before), EntryArgs(k)), false)
  }

  function RuleArgs(r: Rule): Option<Argv> {
    if r.table == "nat" && r.chain == "POSTROUTING" then Some(r.args) else None
  }

  function NatLineTouch(before: seq<string>, after: seq<string>, r: Rule): Touch {
    if Copies(NatList(after), RuleArgs(r)) > 0 then Touch(0, true)
    else Touch(CLEANUP * Copies(NatList(before), RuleArgs(r)), false)
  }

  // ---- ip rules ---------------------------------------------------------------------------------

  lemma VerbOfRule(verb: string, args: Argv)
    requires IsVerb(verb)
    ensures VerbAt(["rule", verb] + args) == 1
    ensures EntryOf(["rule", verb] + args) == RuleEntry(args)
  {
    var a := ["rule", verb] + args;
    assert a[1..][0] == verb;
    assert VerbAt(a) == 1;
    assert a[1 := "add"] == RuleEntry(args);
  }

  /** Deletes copies of a rule until none is left, at most eight. */
  method DropRuleCopies(h: Kernel, args: Argv)
    modifies h`entries, h`disruptions
    ensures forall k :: h.entries[k] == Monus(old(h.entries)[k], if k == RuleEntry(args) then CLEANUP else 0)
  {
    VerbOfRule("del", args);
    for i := 0 to CLEANUP
      invariant forall k :: h.entries[k] == Monus(old(h.entries)[k], if k == RuleEntry(args) then i else 0)
    {
      var ok := h.Ip(["rule", "del"] + args);
      if !ok { break; }
    }
  }

  method RestoreRule(h: Kernel, args: Argv)
    modifies h`entries, h`disruptions
    ensures forall k :: h.entries[k] == Step(old(h.entries)[k], if k == RuleEntry(args) then Touch(CLEANUP - 1, true)
                                             else NOTHING)
  {
    DropRuleCopies(h, args);
    VerbOfRule("add", args);
    var _ := h.Ip(["rule", "add"] + args);
  }

  /** The text keys collected so far stand exactly for the argvs seen so far. */
  ghost predicate KeysStandFor(keys: set<string>, list: seq<Argv>) {
    && (forall i | 0 <= i < |list| :: AllTokens(list[i]))
    && (forall a: Argv :: AllTokens(a) ==> (Join(a, " ") in keys <==> a in list))
  }

  lemma KeysPush(keys: set<string>, list: seq<Argv>, args: Argv)
    requires KeysStandFor(keys, list) && AllTokens(args)
    ensures KeysStandFor(keys + {Join(args, " ")}, list + [args])
  {
    forall a: Argv | AllTokens(a) && Join(a, " ") == Join(args, " ") ensures a == args {
      JoinInjective(a, args);
    }
  }

  lemma ParsedPush(parse: string -> Option<Argv>, lines: seq<string>, i: nat)
    requires i < |lines|
    ensures Parsed(parse, lines[..i + 1])
            == if parse(lines[i]).Some? then Parsed(parse, lines[..i]) + [parse(lines[i]).value]
                else Parsed(parse, lines[..i])
  {
    assert lines[..i + 1][..i] == lines[..i];
  }

  function PassTouch(wanted: nat): Touch { Touch((CLEANUP - 1) * wanted, wanted > 0) }

  lemma PassAgain(c: nat, n: nat)
    ensures Step(Step(c, PassTouch(n)), Touch(CLEANUP - 1, true)) == Step(c, PassTouch(n + 1))
  {
  }

  lemma EntryIs(k: Argv, args: Argv)
    ensures k == RuleEntry(args) <==> EntryArgs(k) == Some(args)
  {
    if EntryArgs(k).Some? {
      assert k == k[..2] + k[2..];
    }
    if k == RuleEntry(args) {
      assert k[..2] == ["rule", "add"] && k[2..] == args;
    }
  }

  /** Every accepted line so far has made its pass over the rule it names. */
  ghost predicate Installed(before: multiset<Argv>, after: multiset<Argv>, list: seq<Argv>) {
    forall k :: after[k] == Step(before[k], PassTouch(Copies(list, EntryArgs(k))))
  }

  lemma InstalledPush(before: multiset<Argv>, mid: multiset<Argv>, after: multiset<Argv>, list: seq<Argv>, args: Argv)
    requires Installed(before, mid, list)
    requires forall k :: after[k] == Step(mid[k], if k == RuleEntry(args) then Touch(CLEANUP - 1, true) else NOTHING)
    ensures Installed(before, after, list + [args])
  {
    forall k ensures after[k] == Step(before[k], PassTouch(Copies(list + [args], EntryArgs(k)))) {
      EntryIs(k, args);
      PassAgain(before[k], Copies(list, EntryArgs(k)));
    }
  }

  method InstallRules(h: Kernel, lines: seq<string>) returns (desired: set<string>)
    modifies h`entries, h`disruptions
    ensures KeysStandFor(desired, Parsed(RuleOf, lines))
    ensures Installed(old(h.entries), h.entries, Parsed(RuleOf, lines))
  {
    desired := {};
    for i := 0 to |lines|
      invariant KeysStandFor(desired, Parsed(RuleOf, lines[..i]))
      invariant Installed(old(h.entries), h.entries, Parsed(RuleOf, lines[..i]))
    {
      ParsedPush(RuleOf, lines, i);
      ghost var list, mid := Parsed(RuleOf, lines[..i]), h.entries;
      var args := ParseRuleLine(lines[i]);
      if args.None? { continue; }
      RuleTokens(lines[i]);
      KeysPush(desired, list, args.value);
      desired := desired + {Join(args.value, " ")};
      RestoreRule(h, args.value);
      InstalledPush(old(h.entries), mid, h.entries, list, args.value);
    }
    assert lines[..|lines|] == lines;
  }

  /** Every old line so far has made its pass over the rule it names, unless that rule is kept. */
  ghost predicate Removed(before: multiset<Argv>, after: multiset<Argv>, list: seq<Argv>, keep: seq<Argv>) {
    forall k :: after[k] ==
      Monus(before[k], if Copies(keep, EntryArgs(k)) > 0 then 0 else CLEANUP * Copies(list, EntryArgs(k)))
  }

  lemma RemovedPush(before: multiset<Argv>, mid: multiset<Argv>, after: multiset<Argv>, list: seq<Argv>,
                    keep: seq<Argv>, args: Argv)
    requires Removed(before, mid, list, keep)
    requires forall k :: after[k] == Monus(mid[k], if k == RuleEntry(args) && args !in keep then CLEANUP else 0)
    ensures Removed(before, after, list + [args], keep)
  {
    forall k
      ensures after[k] ==
              Monus(before[k], if Copies(keep, EntryArgs(k)) > 0 then 0
                    else CLEANUP * Copies(list + [args], EntryArgs(k)))
    {
      EntryIs(k, args);
    }
  }

  method RemoveRules(h: Kernel, lines: seq<string>, desired: set<string>, ghost keep: seq<Argv>)
    requires KeysStandFor(desired, keep)
    modifies h`entries, h`disruptions
    ensures Removed(old(h.entries), h.entries, Parsed(RuleOf, lines), keep)
  {
    for i := 0 to |lines|
      invariant Removed(old(h.entries), h.entries, Parsed(RuleOf, lines[..i]), keep)
    {
      ParsedPush(RuleOf, lines, i);
      ghost var list, mid := Parsed(RuleOf, lines[..i]), h.entries;
      var args := ParseRuleLine(lines[i]);
      if args.None? { continue; }
      RuleTokens(lines[i]);
      if Join(args.value, " ") !in desired {
        DropRuleCopies(h, args.value);
      }
      RemovedPush(old(h.entries), mid, h.entries, list, keep, args.value);
    }
    assert lines[..|lines|] == lines;
  }

  method ApplyRules(h: Kernel, before: seq<string>, after: seq<string>)
    modifies h`entries, h`disruptions
    ensures forall k :: h.entries[k] == Step(old(h.entries)[k], RuleTouch(before, after, k))
  {
    var next := KeepLines(after);
    var desired := InstallRules(h, next);
    var prev := KeepLines(before);
    RemoveRules(h, prev, desired, RuleList(after));
  }

  // ---- POSTROUTING rules ------------------------------------------------------------------------

  method DropNatCopies(h: Kernel, args: Argv)
    modifies h`rules, h`disruptions
    ensures forall r :: h.rules[r] == Monus(old(h.rules)[r], if r == NatRule(args) then CLEANUP else 0)
  {
    for i := 0 to CLEANUP
      invariant forall r :: h.rules[r] == Monus(old(h.rules)[r], if r == NatRule(args) then i else 0)
    {
      var ok := h.DeleteRule(NatRule(args));
      if !ok { break; }
    }
  }

  ghost predicate NatInstalled(before: multiset<Rule>, after: multiset<Rule>, list: seq<Argv>) {
    forall r :: after[r] == Step(before[r], Touch(0, Copies(list, RuleArgs(r)) > 0))
  }

  ghost predicate NatRemoved(before: multiset<Rule>, after: multiset<Rule>, list: seq<Argv>, keep: seq<Argv>) {
    forall r :: after[r] ==
      Monus(before[r], if Copies(keep, RuleArgs(r)) > 0 then 0 else CLEANUP * Copies(list, RuleArgs(r)))
  }

  lemma NatRemovedPush(before: multiset<Rule>, mid: multiset<Rule>, after: multiset<Rule>, list: seq<Argv>,
                       keep: seq<Argv>, args: Argv)
    requires NatRemoved(before, mid, list, keep)
    requires forall r :: after[r] == Monus(mid[r], if r == NatRule(args) && args !in keep then CLEANUP else 0)
    ensures NatRemoved(before, after, list + [args], keep)
  {
  }

  lemma NatInstalledPush(before: multiset<Rule>, mid: multiset<Rule>, after: multiset<Rule>, list: seq<Argv>,
                         args: Argv)
    requires NatInstalled(before, mid, list)
    requires after == if NatRule(args) in mid then mid else mid + multiset{NatRule(args)}
    ensures NatInstalled(before, after, list + [args])
  {
  }

  method InstallNat(h: Kernel, lines: seq<string>) returns (desired: set<string>)
    modifies h`rules
    ensures KeysStandFor(desired, Parsed(NatOf, lines))
    ensures NatInstalled(old(h.rules), h.rules, Parsed(NatOf, lines))
  {
    desired := {};
    for i := 0 to |lines|
      invariant KeysStandFor(desired, Parsed(NatOf, lines[..i]))
      invariant NatInstalled(old(h.rules), h.rules, Parsed(NatOf, lines[..i]))
    {
      ParsedPush(NatOf, lines, i);
      ghost var list, mid := Parsed(NatOf, lines[..i]), h.rules;
      var args := ParseNatLine(lines[i]);
      if args.None? { continue; }
      NatTokens(lines[i]);
      KeysPush(desired, list, args.value);
      desired := desired + {Join(args.value, " ")};
      var present := h.CheckRule(NatRule(args.value));
      if !present { h.AddRule(NatRule(args.value)); }
      NatInstalledPush(old(h.rules), mid, h.rules, list, args.value);
    }
    assert lines[..|lines|] == lines;
  }

  method RemoveNat(h: Kernel, lines: seq<string>, desired: set<string>, ghost keep: seq<Argv>)
    requires KeysStandFor(desired, keep)
    modifies h`rules, h`disruptions
    ensures NatRemoved(old(h.rules), h.rules, Parsed(NatOf, lines), keep)
  {
    for i := 0 to |lines|
      invariant NatRemoved(old(h.rules), h.rules, Parsed(NatOf, lines[..i]), keep)
    {
      ParsedPush(NatOf, lines, i);
      ghost var list, mid := Parsed(NatOf, lines[..i]), h.rules;
      var args := ParseNatLine(lines[i]);
      if args.None? { continue; }
      NatTokens(lines[i]);
      if Join(args.value, " ") !in desired {
        DropNatCopies(h, args.value);
      }
      NatRemovedPush(old(h.rules), mid, h.rules, list, keep, args.value);
    }
    assert lines[..|lines|] == lines;
  }

  method ApplyNat(h: Kernel, before: seq<string>, after: seq<string>)
    modifies h`rules, h`disruptions
    ensures forall r :: h.rules[r] == Step(old(h.rules)[r], NatLineTouch(before, after, r))
  {
    var next := KeepLines(after);
    var desired := InstallNat(h, next);
    var prev := KeepLines(before);
    RemoveNat(h, prev, desired, NatList(after));
  }

  // ---- routes -----------------------------------------------------------------------------------

  type Routes = map<RouteKey, Argv>

  /** Key and way out of an `ip route replace` command. */
  function KeyFor(command: Argv): RouteKey { RouteKeyOf(if |command| < 2 then [] else command[2..]) }

  function ViaFor(command: Argv): Argv { RouteVia(if |command| < 2 then [] else command[2..]) }

  function ReplaceAll(routes: Routes, list: seq<Argv>): Routes {
    if list == [] then routes
    else ReplaceAll(routes, list[..|list| - 1])[KeyFor(list[|list| - 1]) := ViaFor(list[|list| - 1])]
  }

  function RemoveAll(routes: Routes, list: seq<Argv>, keep: seq<Argv>): Routes {
    if list == [] then routes
    else
      var last := list[|list| - 1];
      var rest := RemoveAll(routes, list[..|list| - 1], keep);
      if last in keep || |last| < 2 then rest else RoutesWithout(rest, last[2..])
  }

  lemma RoutesPush(routes: Routes, list: seq<Argv>, args: Argv, keep: seq<Argv>)
    requires |args| >= 2
    ensures ReplaceAll(routes, list + [args]) == ReplaceAll(routes, list)[RouteKeyOf(args[2..]) := RouteVia(args[2..])]
    ensures RemoveAll(routes, list + [args], keep)
            == if args in keep then RemoveAll(routes, list, keep) else RoutesWithout(RemoveAll(routes, list, keep),
                args[2..])
  {
    assert (list + [args])[..|list|] == list;
  }

  /** The routing table after reconciling: all replaces first, then the deletes. */
  function RoutesAfter(routes: Routes, before: seq<string>, after: seq<string>): Routes {
    RemoveAll(ReplaceAll(routes, RouteList(after)), RouteList(before), RouteList(after))
  }

  method ReplaceRoutes(h: Kernel, lines: seq<string>) returns (desired: set<string>)
    modifies h`routes, h`disruptions
    ensures KeysStandFor(desired, Parsed(RouteCommand, lines))
    ensures h.routes == ReplaceAll(old(h.routes), Parsed(RouteCommand, lines))
  {
    desired := {};
    for i := 0 to |lines|
      invariant KeysStandFor(desired, Parsed(RouteCommand, lines[..i]))
      invariant h.routes == ReplaceAll(old(h.routes), Parsed(RouteCommand, lines[..i]))
    {
      ParsedPush(RouteCommand, lines, i);
      ghost var list := Parsed(RouteCommand, lines[..i]);
      var args := ParseRouteLine(lines[i]);
      if args.None? { continue; }
      RouteTokens(lines[i]);
      KeysPush(desired, list, args.value);
      desired := desired + {Join(args.value, " ")};
      h.RouteReplace(args.value[2..]);
      RoutesPush(old(h.routes), list, args.value, []);
    }
    assert lines[..|lines|] == lines;
  }

  method RemoveRoutes(h: Kernel, lines: seq<string>, desired: set<string>, ghost keep: seq<Argv>)
    requires KeysStandFor(desired, keep)
    modifies h`routes, h`disruptions
    ensures h.routes == RemoveAll(old(h.routes), Parsed(RouteCommand, lines), keep)
  {
    for i := 0 to |lines|
      invariant h.routes == RemoveAll(old(h.routes), Parsed(RouteCommand, lines[..i]), keep)
    {
      ParsedPush(RouteCommand, lines, i);
      ghost var list := Parsed(RouteCommand, lines[..i]);
      var args := ParseRouteLine(lines[i]);
      if args.None? { continue; }
      RouteTokens(lines[i]);
      RoutesPush(old(h.routes), list, args.value, keep);
      if Join(args.value, " ") in desired { continue; }
      h.RouteDel(args.value[2..]);
    }
    assert lines[..|lines|] == lines;
  }

  method ApplyRoutes(h: Kernel, before: seq<string>, after: seq<string>)
    modifies h`routes, h`disruptions
    ensures h.routes == RoutesAfter(old(h.routes), before, after)
  {
    var next := KeepLines(after);
    var desired := ReplaceRoutes(h, next);
    var prev := KeepLines(before);
    RemoveRoutes(h, prev, desired, RouteList(after));
  }

  // ---- the whole interface ----------------------------------------------------------------------

  method Reconcile(h: Kernel, before: Extras, after: Extras)
    modifies h`routes, h`entries, h`rules, h`disruptions
    ensures h.routes == RoutesAfter(old(h.routes), before.routes, after.routes)
    ensures forall k :: h.entries[k] == Step(old(h.entries)[k], RuleTouch(before.rules, after.rules, k))
    ensures forall r :: h.rules[r] == Step(old(h.rules)[r], NatLineTouch(before.natLines, after.natLines, r))
  {
    ApplyRoutes(h, before.routes, after.routes);
    ApplyRules(h, before.rules, after.rules);
    ApplyNat(h, before.natLines, after.natLines);
  }

  // ---- the watchdog pass ------------------------------------------------------------------------

  /** Routes whose presence test fails are replaced, one after the other. */
  function RestoreRoutes(routes: Routes, list: seq<Argv>, probe: (Routes, Argv) -> bool): Routes {
    if list == [] then routes
    else
      var last := list[|list| - 1];
      var rest := RestoreRoutes(routes, list[..|list| - 1], probe);
      if probe(rest, last) then rest else rest[KeyFor(last) := ViaFor(last)]
  }

  /** The table has the route of this command, leaving the way the command says. */
  predicate Holds(routes: Routes, args: Argv) {
    KeyFor(args) in routes && routes[KeyFor(args)] == ViaFor(args)
  }

  /** The test claims no route that is gone or leaves another way. */
  ghost predicate RouteProbeSound(probe: (Routes, Argv) -> bool) {
    forall routes, args {:trigger probe(routes, args)} :: probe(routes, args) ==> Holds(routes, args)
  }

  /** Present routes the restoring pass overwrites with another way out. */
  function RestoreOverwrites(routes: Routes, list: seq<Argv>, probe: (Routes, Argv) -> bool): nat {
    if list == [] then 0
    else
      var init, last := list[..|list| - 1], list[|list| - 1];
      var rest := RestoreRoutes(routes, init, probe);
      RestoreOverwrites(routes, init, probe) + if probe(rest, last) then 0
          else Overwrites(rest, KeyFor(last), ViaFor(last))
  }

  ghost predicate RuleProbeExact(probe: (multiset<Argv>, Argv) -> bool) {
    forall m, args {:trigger probe(m, args)} :: probe(m, args) <==> RuleEntry(args) in m
  }

  /** The test claims no ip rule that is gone. One it misses gets another copy from every pass. */
  ghost predicate RuleProbeSound(probe: (multiset<Argv>, Argv) -> bool) {
    forall m, args {:trigger probe(m, args)} :: probe(m, args) ==> RuleEntry(args) in m
  }

  ghost predicate AllPresent(entries: multiset<Argv>, list: seq<Argv>) {
    forall a | a in list :: RuleEntry(a) in entries
  }

  lemma PresentPush(mid: multiset<Argv>, after: multiset<Argv>, list: seq<Argv>, args: Argv)
    requires AllPresent(mid, list) && RuleEntry(args) in after
    requires after == mid || after == mid + multiset{RuleEntry(args)}
    ensures AllPresent(after, list + [args])
  {
  }

  ghost predicate Restored(before: multiset<Argv>, after: multiset<Argv>, list: seq<Argv>) {
    forall k :: after[k] == Step(before[k], Touch(0, Copies(list, EntryArgs(k)) > 0))
  }

  /** Nothing is deleted, and each line adds at most one copy. */
  ghost predicate OnlyAdds(before: multiset<Argv>, after: multiset<Argv>, list: seq<Argv>) {
    forall k :: before[k] <= after[k] <= before[k] + Copies(list, EntryArgs(k))
  }

  lemma RestoredPush(before: multiset<Argv>, mid: multiset<Argv>, after: multiset<Argv>, list: seq<Argv>, args: Argv)
    ensures Restored(before, mid, list) && after == (if RuleEntry(args) in mid then mid
                                                     else mid + multiset{RuleEntry(args)})
            ==> Restored(before, after, list + [args])
    ensures OnlyAdds(before, mid, list) && (after == mid || after == mid + multiset{RuleEntry(args)})
            ==> OnlyAdds(before, after, list + [args])
  {
    forall k { EntryIs(k, args); }
  }

  method EnsureRoutes(h: Kernel, lines: seq<string>, probe: (Routes, Argv) -> bool)
    modifies h`routes, h`disruptions
    ensures h.routes == RestoreRoutes(old(h.routes), Parsed(RouteCommand, lines), probe)
    ensures h.disruptions == old(h.disruptions) + RestoreOverwrites(old(h.routes), Parsed(RouteCommand, lines), probe)
  {
    for i := 0 to |lines|
      invariant h.routes == RestoreRoutes(old(h.routes), Parsed(RouteCommand, lines[..i]), probe)
      invariant h.disruptions == old(h.disruptions) + RestoreOverwrites(old(h.routes),
                Parsed(RouteCommand, lines[..i]), probe)
    {
      ParsedPush(RouteCommand, lines, i);
      ghost var list := Parsed(RouteCommand, lines[..i]);
      var args := ParseRouteLine(lines[i]);
      if args.None? { continue; }
      assert (list + [args.value])[..|list|] == list;
      if probe(h.routes, args.value) { continue; }
      h.RouteReplace(args.value[2..]);
    }
    assert lines[..|lines|] == lines;
  }

  /** What the pass over the ip rules achieves, depending on its test. */
  ghost predicate RulesEnsured(probe: (multiset<Argv>, Argv) -> bool, before: multiset<Argv>, after: multiset<Argv>,
                               list: seq<Argv>) {
    && (RuleProbeExact(probe) ==> Restored(before, after, list))
    && (RuleProbeSound(probe) ==> AllPresent(after, list))
    && OnlyAdds(before, after, list)
  }

  lemma EnsuredPush(probe: (multiset<Argv>, Argv) -> bool, before: multiset<Argv>, mid: multiset<Argv>,
                    after: multiset<Argv>, list: seq<Argv>, args: Argv)
    requires RulesEnsured(probe, before, mid, list)
    requires after == if probe(mid, args) then mid else mid + multiset{RuleEntry(args)}
    ensures RulesEnsured(probe, before, after, list + [args])
  {
    hide Restored, OnlyAdds, AllPresent, RuleEntry;
    RestoredPush(before, mid, after, list, args);
    if RuleProbeSound(probe) { PresentPush(mid, after, list, args); }
  }

  lemma NoRules(probe: (multiset<Argv>, Argv) -> bool, entries: multiset<Argv>)
    ensures RulesEnsured(probe, entries, entries, Parsed(RuleOf, []))
  {
  }

  method EnsureIpRules(h: Kernel, lines: seq<string>, probe: (multiset<Argv>, Argv) -> bool)
    modifies h`entries, h`disruptions
    ensures RulesEnsured(probe, old(h.entries), h.entries, Parsed(RuleOf, lines))
    ensures h.disruptions == old(h.disruptions)
  {
    hide RulesEnsured, Parsed;
    NoRules(probe, h.entries);
    assert lines[..0] == [];
    for i := 0 to |lines|
      invariant RulesEnsured(probe, old(h.entries), h.entries, Parsed(RuleOf, lines[..i]))
      invariant h.disruptions == old(h.disruptions)
    {
      ParsedPush(RuleOf, lines, i);
      ghost var list, mid := Parsed(RuleOf, lines[..i]), h.entries;
      var args := ParseRuleLine(lines[i]);
      if args.None? { continue; }
      if !probe(h.entries, args.value) {
        VerbOfRule("add", args.value);
        var _ := h.Ip(["rule", "add"] + args.value);
      }
      EnsuredPush(probe, old(h.entries), mid, h.entries, list, args.value);
    }
    assert lines[..|lines|] == lines;
  }

  method EnsureNatLines(h: Kernel, lines: seq<string>)
    modifies h`rules
    ensures NatInstalled(old(h.rules), h.rules, Parsed(NatOf, lines))
  {
    for i := 0 to |lines|
      invariant NatInstalled(old(h.rules), h.rules, Parsed(NatOf, lines[..i]))
    {
      ParsedPush(NatOf, lines, i);
      ghost var list, mid := Parsed(NatOf, lines[..i]), h.rules;
      var args := ParseNatLine(lines[i]);
      if args.None? { continue; }
      var present := h.CheckRule(NatRule(args.value));
      if !present { h.AddRule(NatRule(args.value)); }
      NatInstalledPush(old(h.rules), mid, h.rules, list, args.value);
    }
    assert lines[..|lines|] == lines;
  }

  /** Puts back what went missing; `routeProbe` and `ruleProbe` are the presence tests. */
  method Ensure(h: Kernel, e: Extras, routeProbe: (Routes, Argv) -> bool, ruleProbe: (multiset<Argv>, Argv) -> bool)
    modifies h`routes, h`entries, h`rules, h`disruptions
    ensures h.routes == RestoreRoutes(old(h.routes), RouteList(e.routes), routeProbe)
    ensures RouteProbeSound(routeProbe) ==> RoutesRestored(old(h.routes), h.routes, RouteList(e.routes))
    ensures RuleProbeExact(ruleProbe) ==> Restored(old(h.entries), h.entries, RuleList(e.rules))
    ensures RuleProbeSound(ruleProbe) ==> AllPresent(h.entries, RuleList(e.rules))
    ensures OnlyAdds(old(h.entries), h.entries, RuleList(e.rules))
    ensures NatInstalled(old(h.rules), h.rules, NatList(e.natLines))
    ensures h.disruptions == old(h.disruptions) + RestoreOverwrites(old(h.routes), RouteList(e.routes), routeProbe)
  {
    hide Parsed, Kept, Restored, OnlyAdds, AllPresent, NatInstalled, RouteProbeSound, RuleProbeExact, RuleProbeSound,
         RoutesRestored, RestoreRoutes, RestoreOverwrites;
    NothingToRestore(h.routes, routeProbe);
    if RouteProbeSound(routeProbe) { SoundlyRestored(h.routes, RouteList(e.routes), routeProbe); }
    if e.IsZero() { EnsuredNothing(h.entries, h.rules); return; }
    var routes := KeepLines(e.routes);
    EnsureRoutes(h, routes, routeProbe);
    var rules := KeepLines(e.rules);
    EnsureIpRules(h, rules, ruleProbe);
    var nats := KeepLines(e.natLines);
    EnsureNatLines(h, nats);
  }

  lemma EnsuredNothing(entries: multiset<Argv>, rules: multiset<Rule>)
    ensures Restored(entries, entries, RuleList([])) && OnlyAdds(entries, entries, RuleList([]))
    ensures AllPresent(entries, RuleList([]))
    ensures NatInstalled(rules, rules, NatList([]))
  {
  }

  // ---- what the watchdog pass does to routes ----------------------------------------------------

  lemma NothingToRestore(routes: Routes, probe: (Routes, Argv) -> bool)
    ensures RouteList([]) == [] && RestoreRoutes(routes, [], probe) == routes
            && RestoreOverwrites(routes, [], probe) == 0
  {
  }

  /** Restoring two lists in turn is restoring their concatenation. */
  lemma {:induction false} RestoreConcat(routes: Routes, a: seq<Argv>, b: seq<Argv>, probe: (Routes, Argv) -> bool)
    ensures RestoreRoutes(routes, a + b, probe) == RestoreRoutes(RestoreRoutes(routes, a, probe), b, probe)
    ensures RestoreOverwrites(routes, a + b, probe)
            == RestoreOverwrites(routes, a, probe) + RestoreOverwrites(RestoreRoutes(routes, a, probe), b, probe)
  {
    if b == [] {
      assert a + b == a;
    } else {
      var init := b[..|b| - 1];
      RestoreConcat(routes, a, init, probe);
      assert (a + b)[..|a + b| - 1] == a + init;
    }
  }

  /** Every listed key has the way out listed for it last, every other key its route of before. */
  ghost predicate RoutesRestored(before: Routes, after: Routes, list: seq<Argv>) {
    forall key :: RouteRestored(before, after, list, key)
  }

  ghost predicate RouteRestored(before: Routes, after: Routes, list: seq<Argv>, key: RouteKey) {
    match LastVia(list, key)
    case Some(via) => key in after && after[key] == via
    case None => (key in after <==> key in before) && (key in after ==> after[key] == before[key])
  }

  /** With a test that claims nothing that is gone, restoring leaves every listed key with the way out
      listed last, and touches no other. */
  lemma {:induction false} SoundlyRestored(routes: Routes, list: seq<Argv>, probe: (Routes, Argv) -> bool)
    requires RouteProbeSound(probe)
    ensures RoutesRestored(routes, RestoreRoutes(routes, list, probe), list)
  {
    hide KeyFor, ViaFor, RouteProbeSound;
    if list != [] {
      var init, last := list[..|list| - 1], list[|list| - 1];
      SoundlyRestored(routes, init, probe);
      var rest := RestoreRoutes(routes, init, probe);
      ProbeHolds(probe, rest, last);
      forall key ensures RouteRestored(routes, RestoreRoutes(routes, list, probe), list, key) {
        assert RouteRestored(routes, rest, init, key);
      }
    }
  }

  lemma ProbeHolds(probe: (Routes, Argv) -> bool, routes: Routes, args: Argv)
    requires RouteProbeSound(probe)
    ensures probe(routes, args) ==> Holds(routes, args)
  {
  }

  /** Whatever the test claims, a key only ever gets a way out some line lists for it. */
  lemma {:induction false} RestoredFromList(routes: Routes, list: seq<Argv>, probe: (Routes, Argv) -> bool,
                                            key: RouteKey)
    ensures var r := RestoreRoutes(routes, list, probe);
            || ((key in r <==> key in routes) && (key in r ==> r[key] == routes[key]))
            || (key in r && exists a :: a in list && KeyFor(a) == key && ViaFor(a) == r[key])
  {
    hide KeyFor, ViaFor;
    if list != [] {
      var init, last := list[..|list| - 1], list[|list| - 1];
      assert list == init + [last];
      RestoredFromList(routes, init, probe, key);
    }
  }

  /** Restoring changes nothing when every listed route is there, whatever the test claims. */
  lemma {:induction false} NothingMissing(routes: Routes, list: seq<Argv>, probe: (Routes, Argv) -> bool)
    requires forall a | a in list :: Holds(routes, a)
    ensures RestoreRoutes(routes, list, probe) == routes
  {
    hide KeyFor, ViaFor;
    if list != [] {
      var init, last := list[..|list| - 1], list[|list| - 1];
      assert list == init + [last];
      NothingMissing(routes, init, probe);
      assert Holds(routes, last);
      assert routes[KeyFor(last) := ViaFor(last)] == routes;
    }
  }

  /** No two lines send one destination different ways. */
  ghost predicate Agree(list: seq<Argv>) {
    forall a, b | a in list && b in list && KeyFor(a) == KeyFor(b) :: ViaFor(a) == ViaFor(b)
  }

  lemma {:induction false} LastViaAgrees(list: seq<Argv>, a: Argv)
    requires a in list
    ensures LastVia(list, KeyFor(a)).Some?
    ensures Agree(list) ==> LastVia(list, KeyFor(a)) == Some(ViaFor(a))
  {
    ListedHasLast(list, a);
    var b := LastViaIsListed(list, KeyFor(a));
  }

  /** After restoring with such a test every line is in place, exactly when no two lines disagree. */
  lemma AllHoldIff(routes: Routes, list: seq<Argv>, probe: (Routes, Argv) -> bool)
    requires RouteProbeSound(probe)
    ensures (forall a | a in list :: Holds(RestoreRoutes(routes, list, probe), a)) <==> Agree(list)
  {
    hide KeyFor, ViaFor, RouteProbeSound, LastVia, RestoreRoutes;
    SoundlyRestored(routes, list, probe);
    var r := RestoreRoutes(routes, list, probe);
    forall a | a in list ensures LastVia(list, KeyFor(a)).Some? && RouteRestored(routes, r, list, KeyFor(a))
      ensures Agree(list) ==> LastVia(list, KeyFor(a)) == Some(ViaFor(a))
    {
      LastViaAgrees(list, a);
    }
  }

  /** No present route leaves another way than a line says. */
  ghost predicate NoClash(routes: Routes, list: seq<Argv>) {
    forall a | a in list && KeyFor(a) in routes :: routes[KeyFor(a)] == ViaFor(a)
  }

  /** With such a test, restoring overwrites no present route exactly when none leaves another way than a
      line says and no two lines disagree. */
  lemma {:induction false} RestoreOverwritesIff(routes: Routes, list: seq<Argv>, probe: (Routes, Argv) -> bool)
    requires RouteProbeSound(probe)
    ensures RestoreOverwrites(routes, list, probe) == 0 <==> NoClash(routes, list) && Agree(list)
  {
    hide KeyFor, ViaFor, RouteProbeSound;
    if list != [] {
      var init, last := list[..|list| - 1], list[|list| - 1];
      assert list == init + [last];
      RestoreOverwritesIff(routes, init, probe);
      var rest := RestoreRoutes(routes, init, probe);
      ProbeHolds(probe, rest, last);
      SoundlyRestored(routes, init, probe);
      assert RouteRestored(routes, rest, init, KeyFor(last));
      LastClash(routes, rest, init, last);
    }
  }

  lemma LastClash(routes: Routes, rest: Routes, init: seq<Argv>, last: Argv)
    requires RouteRestored(routes, rest, init, KeyFor(last))
    ensures NoClash(routes, init) && Agree(init) ==>
              (Overwrites(rest, KeyFor(last), ViaFor(last)) == 0 <==>
                  NoClash(routes, init + [last])
                  && Agree(init + [last]))
    ensures NoClash(routes, init + [last]) && Agree(init + [last]) ==> NoClash(routes, init) && Agree(init)
  {
    hide KeyFor, ViaFor;
    if LastVia(init, KeyFor(last)).Some? {
      var a := LastViaIsListed(init, KeyFor(last));
      assert a in init + [last] && last in init + [last];
    } else {
      forall a | a in init ensures KeyFor(a) != KeyFor(last) { ListedHasLast(init, a); }
    }
    assert forall a :: a in init + [last] <==> a in init || a == last;
  }

  // ---- convergence ------------------------------------------------------------------------------

  /** The way out the last line for a route key asks for. */
  function LastVia(list: seq<Argv>, key: RouteKey): Option<Argv> {
    if list == [] then None
    else if KeyFor(list[|list| - 1]) == key then Some(ViaFor(list[|list| - 1]))
    else LastVia(list[..|list| - 1], key)
  }

  lemma {:induction false} ReplaceAllGives(routes: Routes, list: seq<Argv>, key: RouteKey)
    ensures var r := ReplaceAll(routes, list);
            match LastVia(list, key)
            case Some(via) => key in r && r[key] == via
            case None => (key in r <==> key in routes) && (key in r ==> r[key] == routes[key])
  {
    if list != [] {
      ReplaceAllGives(routes, list[..|list| - 1], key);
    }
  }

  /** Some deleted old line names exactly this route. */
  ghost predicate Deleted(list: seq<Argv>, keep: seq<Argv>, key: RouteKey, via: Argv) {
    exists a :: a in list && a !in keep && |a| >= 2 && KeyFor(a) == key && ViaFor(a) == via
  }

  lemma {:induction false} RemoveAllGives(routes: Routes, list: seq<Argv>, keep: seq<Argv>, key: RouteKey)
    ensures var r := RemoveAll(routes, list, keep);
            && (key in r <==> key in routes && !Deleted(list, keep, key, routes[key]))
            && (key in r ==> r[key] == routes[key])
  {
    if list != [] {
      var init, last := list[..|list| - 1], list[|list| - 1];
      assert list == init + [last];
      RemoveAllGives(routes, init, keep, key);
      if key in routes && Deleted(list, keep, key, routes[key]) && !Deleted(init, keep, key, routes[key]) {
        var a :| a in list && a !in keep && |a| >= 2 && KeyFor(a) == key && ViaFor(a) == routes[key];
        assert a == last;
      }
      if key in routes && Deleted(init, keep, key, routes[key]) {
        assert Deleted(list, keep, key, routes[key]);
      }
    }
  }

  /** The same route written with or without an explicit `table main`. */
  function OtherSpelling(a: Argv): Argv {
    if |a| == 5 then a + ["table", "main"]
    else if |a| == 7 && a[6] == "main" then a[..5]
    else a
  }

  /** Two accepted commands name the same route only if they are the same or each other's spelling. */
  lemma SameRoute(line1: string, line2: string)
    requires RouteCommand(line1).Some? && RouteCommand(line2).Some?
    ensures var a, b := RouteCommand(line1).value, RouteCommand(line2).value;
            KeyFor(a) == KeyFor(b) && ViaFor(a) == ViaFor(b) <==> b == a || b == OtherSpelling(a)
  {
    hide KeyFor, ViaFor, RouteCommand;
    CommandShape(line1);
    CommandShape(line2);
    var a, b := RouteCommand(line1).value, RouteCommand(line2).value;
    if KeyFor(a) == KeyFor(b) && ViaFor(a) == ViaFor(b) {
      assert a[2] == b[2] && a[4] == b[4];
      assert a[..5] == b[..5];
    }
  }

  /** Key and way out of an accepted command. */
  lemma CommandShape(line: string)
    requires RouteCommand(line).Some?
    ensures var a := RouteCommand(line).value;
            && (|a| == 5 || (|a| == 7 && a[5] == "table"))
            && a[..2] == ["route", "replace"] && a[3] == "via"
            && KeyFor(a) == RouteKey(a[2], if |a| == 5 then "main" else a[6])
            && ViaFor(a) == ["via", a[4]]
  {
    var f := RouteOf(line).value;
    var a := RouteCommand(line).value;
    assert a[2..] == f;
    var t := f[1..];
    var rest := t[2..];
    assert t[..2] == ["via", f[2]];
    assert PairValue(t, "table") == PairValue(rest, "table");
    if |f| == 3 {
      assert rest == [];
    } else {
      assert rest[0] == "table" && rest[1] == f[4] && rest[2..] == [];
    }
    assert WithoutPair(rest, "table") == [];
    assert WithoutPair(t, "table") == t[..2] + WithoutPair(rest, "table");
    assert ViaFor(a) == ["via", a[4]];
  }

  lemma {:induction false} ParsedComeFromLines(parse: string -> Option<Argv>, lines: seq<string>, a: Argv)
    requires a in Parsed(parse, lines)
    ensures exists ln :: ln in lines && parse(ln) == Some(a)
  {
    var init, last := lines[..|lines| - 1], lines[|lines| - 1];
    assert lines == init + [last];
    if parse(last) == Some(a) {
    } else {
      ParsedComeFromLines(parse, init, a);
    }
  }

  lemma {:induction false} LastViaIsListed(list: seq<Argv>, key: RouteKey) returns (a: Argv)
    requires LastVia(list, key).Some?
    ensures a in list && KeyFor(a) == key && ViaFor(a) == LastVia(list, key).value
  {
    var init, last := list[..|list| - 1], list[|list| - 1];
    assert list == init + [last];
    if KeyFor(last) == key { a := last; } else { a := LastViaIsListed(init, key); }
  }

  lemma {:induction false} ListedHasLast(list: seq<Argv>, a: Argv)
    requires a in list
    ensures LastVia(list, KeyFor(a)).Some?
  {
    var init, last := list[..|list| - 1], list[|list| - 1];
    assert list == init + [last];
    if KeyFor(last) != KeyFor(a) {
      ListedHasLast(init, a);
    }
  }

  /** The old configuration writes this wanted route in the other spelling, and the new one does not. */
  ghost predicate Respelled(before: seq<string>, after: seq<string>, key: RouteKey) {
    exists a :: a in RouteList(after) && KeyFor(a) == key && LastVia(RouteList(after), key) == Some(ViaFor(a))
                && OtherSpelling(a) in RouteList(before) && OtherSpelling(a) !in RouteList(after)
  }

  /** Convergence of one wanted route. It ends with the gateway listed last, exactly when the change
      did not merely add or drop an explicit `table main`: in that one case the cleanup of the old
      spelling deletes the route that was just installed. */
  lemma WantedRouteOutcome(routes: Routes, before: seq<string>, after: seq<string>, key: RouteKey)
    requires LastVia(RouteList(after), key).Some?
    ensures var r := RoutesAfter(routes, before, after);
            && (key in r <==> !Respelled(before, after, key))
            && (key in r ==> r[key] == LastVia(RouteList(after), key).value)
  {
    var was, now := RouteList(before), RouteList(after);
    ReplaceAllGives(routes, now, key);
    RemoveAllGives(ReplaceAll(routes, now), was, now, key);
    var via := LastVia(now, key).value;
    if Deleted(was, now, key, via) {
      var b :| b in was && b !in now && |b| >= 2 && KeyFor(b) == key && ViaFor(b) == via;
      var a := LastViaIsListed(now, key);
      ParsedComeFromLines(RouteCommand, Kept(before), b);
      ParsedComeFromLines(RouteCommand, Kept(after), a);
      var l1 :| l1 in Kept(after) && RouteCommand(l1) == Some(a);
      var l2 :| l2 in Kept(before) && RouteCommand(l2) == Some(b);
      SameRoute(l1, l2);
      assert Respelled(before, after, key);
    }
    if Respelled(before, after, key) {
      var a :| a in now && KeyFor(a) == key && LastVia(now, key) == Some(ViaFor(a))
               && OtherSpelling(a) in was && OtherSpelling(a) !in now;
      ParsedComeFromLines(RouteCommand, Kept(before), OtherSpelling(a));
      ParsedComeFromLines(RouteCommand, Kept(after), a);
      var l1 :| l1 in Kept(after) && RouteCommand(l1) == Some(a);
      var l2 :| l2 in Kept(before) && RouteCommand(l2) == Some(OtherSpelling(a));
      SameRoute(l1, l2);
      CommandShape(l2);
      assert Deleted(was, now, key, via);
    }
  }

  /** Convergence of a route no line wants: it is gone if an old line names it exactly, and otherwise
      it is whatever it was. */
  lemma UnwantedRouteOutcome(routes: Routes, before: seq<string>, after: seq<string>, key: RouteKey)
    requires LastVia(RouteList(after), key).None?
    ensures var r := RoutesAfter(routes, before, after);
            && (key in r <==>
                key in routes
                && !exists a :: a in RouteList(before) && KeyFor(a) == key && ViaFor(a) == routes[key])
            && (key in r ==> r[key] == routes[key])
  {
    var was, now := RouteList(before), RouteList(after);
    ReplaceAllGives(routes, now, key);
    RemoveAllGives(ReplaceAll(routes, now), was, now, key);
    forall a | a in was && KeyFor(a) == key ensures a !in now && |a| >= 2 {
      if a in now { ListedHasLast(now, a); assert false; }
      ParsedComeFromLines(RouteCommand, Kept(before), a);
      var ln :| ln in Kept(before) && RouteCommand(ln) == Some(a);
      CommandShape(ln);
    }
  }

  /** The routing table after reconciling along a chain of configurations. */
  function RouteChain(routes: Routes, chain: seq<seq<string>>): Routes
    requires chain != []
  {
    if |chain| == 1 then routes
    else RoutesAfter(RouteChain(routes, chain[..|chain| - 1]), chain[|chain| - 2], chain[|chain| - 1])
  }

  /** Path independence of the routes: whatever was configured on the way, the table ends with the host's own
      routes plus the last listed gateway of each destination the newest configuration names. A listed one
      is missing exactly when the last step only respelled it, whatever the earlier steps respelled. */
  lemma {:induction false} RoutePathIndependence(base: Routes, chain: seq<seq<string>>, key: RouteKey)
    requires chain != [] && RouteList(chain[0]) == []
    requires (exists c :: c in chain && LastVia(RouteList(c), key).Some?) ==> key !in base
    ensures var r, n := RouteChain(base, chain), |chain| - 1;
            match LastVia(RouteList(chain[n]), key)
            case Some(via) =>
              n > 0 && (key in r <==> !Respelled(chain[n - 1], chain[n], key)) && (key in r ==> r[key] == via)
            case None => (key in r <==> key in base) && (key in r ==> r[key] == base[key])
  {
    hide RoutesAfter, RouteList, KeyFor, ViaFor, Respelled;
    if |chain| > 1 {
      var n := |chain| - 1;
      var init := chain[..n];
      assert init[0] == chain[0] && chain[n] in chain && chain[n - 1] in chain;
      RoutePathIndependence(base, init, key);
      var routes := RouteChain(base, init);
      if LastVia(RouteList(chain[n]), key).Some? {
        WantedRouteOutcome(routes, chain[n - 1], chain[n], key);
      } else {
        UnwantedRouteOutcome(routes, chain[n - 1], chain[n], key);
        var was := RouteList(chain[n - 1]);
        if LastVia(was, key).Some? {
          var a := LastViaIsListed(was, key);
        } else {
          forall a | a in was && KeyFor(a) == key ensures false { ListedHasLast(was, a); }
        }
      }
    }
  }

  /** The respelled route comes back with the next pass. */
  lemma RespelledRouteHeals(routes: Routes, before: seq<string>, after: seq<string>, key: RouteKey)
    requires LastVia(RouteList(after), key).Some?
    ensures var r := RoutesAfter(RoutesAfter(routes, before, after), after, after);
            key in r && r[key] == LastVia(RouteList(after), key).value
  {
    WantedRouteOutcome(RoutesAfter(routes, before, after), after, after, key);
  }

  /** Copies left after n passes with the same lines. */
  function Passes(c: nat, t: Touch, n: nat): nat {
    if n == 0 then c else Step(Passes(c, t, n - 1), t)
  }

  /** Bounded cleanup: a wanted rule loses seven surplus copies for each line and pass until one is
      left; a dropped rule loses eight for each old line. */
  lemma {:induction false} CleanupPasses(c: nat, lines: seq<string>, k: Argv, n: nat)
    requires Copies(RuleList(lines), EntryArgs(k)) > 0 && n > 0
    ensures Passes(c, RuleTouch(lines, lines, k), n) == Max(1, Monus(c, 7 * Copies(RuleList(lines), EntryArgs(k)) * n))
  {
    hide Copies, RuleList;
    var w := Copies(RuleList(lines), EntryArgs(k));
    var t := RuleTouch(lines, lines, k);
    if n == 1 {
      assert Passes(c, t, 0) == c;
    } else {
      CleanupPasses(c, lines, k, n - 1);
      assert 7 * w * n == 7 * w * (n - 1) + 7 * w;
    }
  }

  /** How many passes leave exactly one copy. */
  lemma CleanupReachesOne(c: nat, lines: seq<string>, k: Argv, n: nat)
    requires Copies(RuleList(lines), EntryArgs(k)) > 0 && n > 0
    ensures Passes(c, RuleTouch(lines, lines, k), n) == 1
            <==> c <= 7 * Copies(RuleList(lines), EntryArgs(k)) * n + 1
  {
    hide Copies, RuleList, RuleTouch, Passes;
    CleanupPasses(c, lines, k, n);
  }
}
