/** overlay/overlay.go: the firewall rules of the overlay links, and the cleanup of surplus copies. */
module OverlayFirewall {
  import opened Text
  import opened Host
  import opened Counts

  const ACCEPT: Argv := ["-j", "ACCEPT"]

  /** How many copies of one rule a removed link takes with it at most. */
  const FORGET := 8

  function Accept(chain: string, spec: Argv): Rule { Rule("", chain, spec + ACCEPT) }

  function ProtocolRules(): seq<Rule> {
    [Accept("INPUT", ["-p", "4"]), Accept("INPUT", ["-p", "47"])]
  }

  /** The rules that name one link. */
  function LinkRules(name: string): seq<Rule> {
    if name == "" then []
    else [Accept("INPUT", ["-i", name]), Accept("FORWARD", ["-i", name]), Accept("FORWARD", ["-o", name])]
  }

  /** firewallAllow and forwardAllow: -C, and -I when the rule is missing. */
  method Allow(h: Kernel, rules: seq<Rule>)
    modifies h`rules
    ensures forall r :: h.rules[r] == Step(old(h.rules)[r], Touch(0, r in rules))
  {
    for i := 0 to |rules|
      invariant forall r :: h.rules[r] == Step(old(h.rules)[r], Touch(0, r in rules[..i]))
    {
      var present := h.CheckRule(rules[i]);
      if present { continue; }
      h.AddRule(rules[i]);
    }
    assert rules[..|rules|] == rules;
  }

  /** Deletes copies of a rule until none is left, at most eight. */
  method ForgetRule(h: Kernel, rule: Rule)
    modifies h`rules, h`disruptions
    ensures forall r :: h.rules[r] == Monus(old(h.rules)[r], if r == rule then FORGET else 0)
    ensures rule !in old(h.rules) ==> h.disruptions == old(h.disruptions)
  {
    for i := 0 to FORGET
      invariant forall r :: h.rules[r] == Monus(old(h.rules)[r], if r == rule then i else 0)
      invariant rule !in old(h.rules) ==> h.disruptions == old(h.disruptions)
    {
      var ok := h.DeleteRule(rule);
      if !ok { break; }
    }
  }

  /** firewallForget and forwardForget. */
  method Forget(h: Kernel, name: string)
    requires name != ""
    modifies h`rules, h`disruptions
    ensures forall r :: h.rules[r] == Monus(old(h.rules)[r], if r in LinkRules(name) then FORGET else 0)
  {
    ForgetRule(h, Accept("INPUT", ["-i", name]));
    ForgetRule(h, Accept("FORWARD", ["-i", name]));
    ForgetRule(h, Accept("FORWARD", ["-o", name]));
    LinkRulesDiffer(name);
  }

  lemma LinkRulesDiffer(name: string)
    ensures var a, b, c := Accept("INPUT", ["-i", name]), Accept("FORWARD", ["-i", name]),
            Accept("FORWARD", ["-o", name]);
            a != b && b != c && a != c
  {
    assert Accept("FORWARD", ["-i", name]).args[0] == "-i" && Accept("FORWARD", ["-o", name]).args[0] == "-o";
    assert "-i"[1] == 'i' && "-o"[1] == 'o';
    assert "INPUT"[0] == 'I' && "FORWARD"[0] == 'F';
  }

  // ---- surplus copies ---------------------------------------------------------------------------

  /** The match spec an `iptables -S` line documents; "" for other lines. */
  function RuleSpec(line: string): string {
    var f := Fields(line);
    if |f| < 3 || f[0] != "-A" then "" else Join(f[2..], " ")
  }

  ghost predicate PlainArgs(args: Argv) {
    args != [] && forall i | 0 <= i < |args| :: PlainWord(args[i])
  }

  lemma {:induction false} QuotedField(ts: Argv, i: nat)
    requires i < |ts| && ts[i] != "" && ts[i][0] == '"'
    ensures exists k | 0 <= k < |Fields(Join(ts, " "))| :: Fields(Join(ts, " "))[k] != ""
              && Fields(Join(ts, " "))[k][0] == '"'
  {
    var s := Join(ts, " ");
    if i == 0 {
      var rest := if |ts| == 1 then ts[0][1..] else ts[0][1..] + " " + Join(ts[1..], " ");
      assert s == "\"" + rest;
      FirstFieldHasPrefix("\"", rest);
      assert Fields(s)[0][0] == '"';
    } else {
      QuotedField(ts[1..], i - 1);
      var tail := Join(ts[1..], " ");
      assert s == ts[0] + [' '] + tail;
      FieldsSplit(ts[0], ' ', tail);
      var k :| 0 <= k < |Fields(tail)| && Fields(tail)[k] != "" && Fields(tail)[k][0] == '"';
      assert Fields(s)[|Fields(ts[0])| + k] == Fields(tail)[k];
    }
  }

  /** The fields of a listed rule. */
  lemma RuleLineFields(r: Rule)
    requires IsToken(r.chain)
    ensures Fields(RuleLine(r)) == ["-A", r.chain] + Fields(Join(QuoteAll(r.args), " "))
  {
    hide Fields, QuoteAll, Join;
    var tail := Join(QuoteAll(r.args), " ");
    var rest := r.chain + [' '] + tail;
    assert "-A " == "-A" + [' '];
    assert RuleLine(r) == "-A" + [' '] + rest;
    FieldsSplit("-A", ' ', rest);
    FieldsSplit(r.chain, ' ', tail);
    FieldsOfToken(r.chain);
    assert IsToken("-A");
    FieldsOfToken("-A");
  }

  /** The printed arguments read back as a plain spec exactly when they are that spec. */
  lemma QuotedFields(given: Argv, args: Argv)
    requires PlainArgs(args)
    ensures Fields(Join(QuoteAll(given), " ")) == args <==> given == args
  {
    hide Fields, Join, IsToken;
    if forall i | 0 <= i < |given| :: PlainWord(given[i]) {
      assert QuoteAll(given) == given;
      assert AllTokens(given);
      FieldsOfJoin(given);
    } else {
      var i :| 0 <= i < |given| && !PlainWord(given[i]);
      QuotedField(QuoteAll(given), i);
    }
  }

  /** A listed line documents a plain spec exactly when it is a copy of that rule. */
  lemma SpecOfLine(r: Rule, args: Argv)
    requires IsToken(r.chain) && PlainArgs(args)
    ensures RuleSpec(RuleLine(r)) == Join(args, " ") <==> r.args == args
  {
    hide Fields, Join, IsToken, QuoteAll;
    var f := Fields(Join(QuoteAll(r.args), " "));
    RuleLineFields(r);
    QuotedFields(r.args, args);
    assert (["-A", r.chain] + f)[2..] == f;
    assert AllTokens(args);
    JoinLast(args);
    FieldsAreTokens(Join(QuoteAll(r.args), " "));
    if f != [] && Join(f, " ") == Join(args, " ") {
      JoinInjective(f, args);
    }
  }

  lemma PolicyLineHasNoSpec(chain: string)
    requires IsToken(chain)
    ensures RuleSpec("-P " + chain + " ACCEPT") == ""
  {
    hide Fields, Join;
    var line := "-P " + chain + " ACCEPT";
    assert "-P " == "-P" + [' '];
    assert line == "-P" + [' '] + (chain + " ACCEPT");
    FieldsSplit("-P", ' ', chain + " ACCEPT");
    FieldsOfToken("-P");
    assert Fields(line)[0] == "-P" && "-P"[1] == 'P';
  }

  function Count(counts: map<string, nat>, spec: string): nat {
    if spec in counts then counts[spec] else 0
  }

  /** The text keys of a set of specs. */
  function Texts(keep: set<Argv>): set<string> {
    set a | a in keep :: Join(a, " ")
  }

  ghost predicate AllPlain(keep: set<Argv>) {
    forall a | a in keep :: PlainArgs(a)
  }

  /** The counters hold, for each kept spec, how many of the listed rules are copies of it. */
  ghost predicate Counted(counts: map<string, nat>, keep: set<Argv>, chain: string, listed: seq<Rule>) {
    && (forall spec | spec in counts :: spec in Texts(keep) && counts[spec] > 0)
    && (forall a | a in keep :: Count(counts, Join(a, " ")) == multiset(listed)[Rule("", chain, a)])
  }

  lemma CountedPush(counts: map<string, nat>, keep: set<Argv>, chain: string, listed: seq<Rule>, r: Rule)
    requires Counted(counts, keep, chain, listed) && AllPlain(keep)
    requires IsToken(chain) && r.table == "" && r.chain == chain
    ensures var spec := RuleSpec(RuleLine(r));
            Counted(if spec in Texts(keep) then counts[spec := Count(counts, spec) + 1] else counts, keep, chain,
                    listed + [r])
  {
    hide PlainArgs, Join, RuleSpec, RuleLine;
    var spec := RuleSpec(RuleLine(r));
    var next := if spec in Texts(keep) then counts[spec := Count(counts, spec) + 1] else counts;
    forall a | a in keep ensures Count(next, Join(a, " ")) == multiset(listed + [r])[Rule("", chain, a)] {
      SpecOfLine(r, a);
      assert Join(a, " ") in Texts(keep);
      assert r == Rule("", chain, a) <==> r.args == a;
    }
  }

  /** First half of dedupeRules: read the chain and count the copies of the kept specs. */
  method CountCopies(h: Kernel, chain: string, keep: set<string>, ghost specs: set<Argv>)
    returns (counts: map<string, nat>)
    requires IsToken(chain) && AllPlain(specs) && keep == Texts(specs)
    ensures forall spec | spec in counts :: spec in Texts(specs) && counts[spec] > 0
    ensures forall a | a in specs :: Count(counts, Join(a, " ")) == h.rules[Rule("", chain, a)]
  {
    hide RuleSpec, RuleLine, Join, PlainArgs;
    var lines, listed := h.ListChain(chain);
    counts := map[];
    PolicyLineHasNoSpec(chain);
    NoEmptySpec(specs);
    for i := 0 to |lines|
      invariant i > 0 ==> Counted(counts, specs, chain, listed[..i - 1])
      invariant i == 0 ==> counts == map[]
    {
      var spec := RuleSpec(lines[i]);
      if i == 0 {
        assert listed[..0] == [];
      } else {
        assert listed[i - 1] in multiset(listed);
        assert listed[..i] == listed[..i - 1] + [listed[i - 1]];
        CountedPush(counts, specs, chain, listed[..i - 1], listed[i - 1]);
      }
      if spec == "" { continue; }
      if spec in keep {
        counts := counts[spec := Count(counts, spec) + 1];
      }
    }
    assert listed[..|listed|] == listed;
  }

  lemma NoEmptySpec(keep: set<Argv>)
    requires AllPlain(keep)
    ensures "" !in Texts(keep)
  {
    hide Join, IsToken;
    forall a | a in keep ensures Join(a, " ") != "" {
      assert AllTokens(a);
      JoinLast(a);
    }
  }

  /** A kept rule of the chain. */
  ghost predicate KeptRule(r: Rule, chain: string, keep: set<Argv>) {
    r.table == "" && r.chain == chain && r.args in keep
  }

  function AtMostOne(c: nat): nat { if c > 1 then 1 else c }

  /** Deletes surplus copies of one rule. */
  method DropSurplus(h: Kernel, rule: Rule, n: nat) returns (removed: nat)
    requires n > 0 && n == h.rules[rule]
    modifies h`rules, h`disruptions
    ensures h.rules == old(h.rules)[rule := 1]
    ensures removed == n - 1 && h.disruptions == old(h.disruptions) + removed
  {
    removed := 0;
    for i := 1 to n
      invariant removed == i - 1 && h.rules == old(h.rules)[rule := n - removed]
      invariant h.disruptions == old(h.disruptions) + removed
    {
      var ok := h.DeleteRule(rule);
      if !ok { break; }
      removed := removed + 1;
    }
  }

  /** dedupeRules: each kept spec is left with at most one copy, every other rule with all of its. */
  method DedupeRules(h: Kernel, chain: string, keep: set<string>, ghost specs: set<Argv>) returns (removed: nat)
    requires IsToken(chain) && AllPlain(specs) && keep == Texts(specs)
    modifies h`rules, h`disruptions
    ensures forall r :: h.rules[r] == if KeptRule(r, chain, specs) then AtMostOne(old(h.rules)[r]) else old(h.rules)[r]
    ensures h.disruptions == old(h.disruptions) + removed
    ensures removed == 0 <==> forall r | KeptRule(r, chain, specs) :: old(h.rules)[r] <= 1
  {
    hide PlainArgs, Join, IsToken;
    removed := 0;
    if keep == {} {
      NothingToKeep(chain, specs);
      return;
    }
    var counts := CountCopies(h, chain, keep, specs);
    var todo := counts.Keys;
    while todo != {}
      invariant todo <= counts.Keys
      invariant Deduped(old(h.rules), h.rules, chain, specs, todo)
      invariant h.disruptions == old(h.disruptions) + removed
      invariant removed == 0 <==> NoSurplus(old(h.rules), chain, specs, todo)
    {
      var spec :| spec in todo;
      todo := todo - {spec};
      ghost var args :| args in specs && Join(args, " ") == spec;
      TextDetermines(specs, args);
      DedupedPush(old(h.rules), h.rules, chain, specs, todo, args);
      var rule := Rule("", chain, Fields(spec));
      var gone := DropSurplus(h, rule, counts[spec]);
      removed := removed + gone;
    }
  }

  /** The specs that are not left to do have at most one copy. */
  ghost predicate Deduped(before: multiset<Rule>, after: multiset<Rule>, chain: string, specs: set<Argv>,
                          todo: set<string>) {
    forall r :: after[r] == if KeptRule(r, chain, specs) && Join(r.args, " ") !in todo then AtMostOne(before[r])
        else before[r]
  }

  ghost predicate NoSurplus(rules: multiset<Rule>, chain: string, specs: set<Argv>, todo: set<string>) {
    forall r | KeptRule(r, chain, specs) && Join(r.args, " ") !in todo :: rules[r] <= 1
  }

  lemma DedupedPush(before: multiset<Rule>, mid: multiset<Rule>, chain: string, specs: set<Argv>, todo: set<string>,
                    args: Argv)
    requires args in specs && Join(args, " ") !in todo && before[Rule("", chain, args)] > 0
    requires forall a | a in specs && Join(a, " ") == Join(args, " ") :: a == args
    requires Deduped(before, mid, chain, specs, todo + {Join(args, " ")})
    ensures mid[Rule("", chain, args)] == before[Rule("", chain, args)]
    ensures Deduped(before, mid[Rule("", chain, args) := 1], chain, specs, todo)
    ensures NoSurplus(before, chain, specs, todo)
            <==> NoSurplus(before, chain, specs, todo + {Join(args, " ")}) && before[Rule("", chain, args)] == 1
  {
    hide Join;
    var rule := Rule("", chain, args);
    assert KeptRule(rule, chain, specs);
    assert forall r | KeptRule(r, chain, specs) && Join(r.args, " ") == Join(args, " ") :: r == rule;
  }

  lemma NothingToKeep(chain: string, specs: set<Argv>)
    requires Texts(specs) == {}
    ensures forall r :: !KeptRule(r, chain, specs)
  {
    assert forall a | a in specs :: Join(a, " ") in Texts(specs);
  }

  /** Splitting a kept text gives its spec back, and no other spec has that text. */
  lemma TextDetermines(specs: set<Argv>, args: Argv)
    requires AllPlain(specs) && args in specs
    ensures Fields(Join(args, " ")) == args
    ensures forall a | a in specs && Join(a, " ") == Join(args, " ") :: a == args
  {
    hide Join, IsToken;
    assert AllTokens(args);
    FieldsOfJoin(args);
    forall a | a in specs && Join(a, " ") == Join(args, " ") ensures a == args {
      assert AllTokens(a);
      FieldsOfJoin(a);
    }
  }
}
