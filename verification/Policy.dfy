/** wg/policy.go: operator-supplied `ip rule` / `ip route` lines, diffed as text and applied as words. */
module Policy {
  import opened Text
  import opened Host
  import opened Counts
  import opened Nat

  // ---- reading the text -------------------------------------------------------------------------

  function PolicyLines(text: string): seq<string> {
    Kept(Split(text, '\n'))
  }

  method ReadPolicyLines(text: string) returns (lines: seq<string>)
    ensures lines == PolicyLines(text)
  {
    lines := KeepLines(Split(text, '\n'));
  }

  /** The kernel entry a line is about; None when the line is not an `ip` command or has no add/del
      word, so that it cannot be undone. */
  function KeyOf(line: string): Option<Argv> {
    var f := Fields(line);
    if |f| < 2 || f[0] != "ip" || VerbAt(f[1..]) == |f| - 1 then None else Some(EntryOf(f[1..]))
  }

  /** The entry of a line, unless the line is kept. */
  function OwnKey(line: string, keep: seq<string>): seq<Argv> {
    if line in keep || KeyOf(line).None? then [] else [KeyOf(line).value]
  }

  /** The entries of the lines that do not appear in `keep`, one for each line. */
  function KeysExcept(lines: seq<string>, keep: seq<string>): seq<Argv> {
    if lines == [] then [] else
      var last := lines[|lines| - 1];
      KeysExcept(lines[..|lines| - 1], keep) + OwnKey(last, keep)
  }

  function Keys(text: string): seq<Argv> {
    KeysExcept(PolicyLines(text), [])
  }

  /** The words that follow "from" among the first n words. */
  function FromWords(f: Argv, n: nat): seq<string>
    requires n <= |f|
  {
    if n == 0 then [] else
      FromWords(f, n - 1) + if n < |f| && f[n - 1] == "from" then [f[n]] else []
  }

  function FromSubnets(lines: seq<string>): seq<string> {
    if lines == [] then [] else
      var f := Fields(lines[|lines| - 1]);
      FromSubnets(lines[..|lines| - 1]) + FromWords(f, |f|)
  }

  method PolicyFromSubnets(text: string) returns (subnets: seq<string>)
    ensures subnets == FromSubnets(PolicyLines(text))
  {
    subnets := [];
    var lines := ReadPolicyLines(text);
    for k := 0 to |lines|
      invariant subnets == FromSubnets(lines[..k])
    {
      assert lines[..k + 1][..k] == lines[..k];
      var f := Fields(lines[k]);
      var i := 0;
      while i + 1 < |f|
        invariant 0 <= i <= |f|
        invariant |f| > 0 ==> i < |f|
        invariant subnets == FromSubnets(lines[..k]) + FromWords(f, i)
      {
        if f[i] == "from" {
          subnets := subnets + [f[i + 1]];
        }
        i := i + 1;
      }
    }
    assert lines[..|lines|] == lines;
  }

  function AcceptFrom(subnet: string): Rule { Rule("", "FORWARD", ["-s", subnet, "-j", "ACCEPT"]) }

  function AcceptBack(subnet: string): Rule { Rule("", "FORWARD", ["-d", subnet] + FORWARD_BACK) }

  function ForwardRules(subnets: seq<string>): seq<Rule> {
    if subnets == [] then [] else
      var s := subnets[|subnets| - 1];
      ForwardRules(subnets[..|subnets| - 1]) + [AcceptFrom(s), AcceptBack(s)]
  }

  function RulesOf(text: string): seq<Rule> {
    ForwardRules(FromSubnets(PolicyLines(text)))
  }

  function Without(subnets: seq<string>, keep: seq<string>): seq<string> {
    if subnets == [] then [] else
      var last := subnets[|subnets| - 1];
      Without(subnets[..|subnets| - 1], keep) + if last in keep then [] else [last]
  }

  function StaleRules(before: string, after: string): seq<Rule> {
    ForwardRules(Without(FromSubnets(PolicyLines(before)), FromSubnets(PolicyLines(after))))
  }

  // ---- what a change of text does to one entry or rule ------------------------------------------

  function PolicyTouch(before: string, after: string, k: Argv): Touch {
    Touch(multiset(KeysExcept(PolicyLines(before), PolicyLines(after)))[k], k in Keys(after))
  }

  function PolicyRuleTouch(before: string, after: string, r: Rule): Touch {
    Touch(multiset(StaleRules(before, after))[r], r in RulesOf(after))
  }

  function RemoveTouch(text: string, k: Argv): Touch { Touch(multiset(Keys(text))[k], false) }

  function RemoveRuleTouch(text: string, r: Rule): Touch { Touch(multiset(RulesOf(text))[r], false) }

  // ---- running it -------------------------------------------------------------------------------

  /** Runs one line with its add/del word forced to `verb`. */
  method RunPolicyLine(h: Kernel, line: string, verb: string) returns (ok: bool)
    requires IsVerb(verb)
    modifies h`entries, h`disruptions
    ensures KeyOf(line).None? ==> h.entries == old(h.entries) && h.disruptions == old(h.disruptions)
    ensures KeyOf(line).Some? && verb == "add" ==>
              ok && h.entries == old(h.entries) + multiset{KeyOf(line).value} && h.disruptions == old(h.disruptions)
    ensures KeyOf(line).Some? && verb == "del" ==>
              && h.entries == old(h.entries) - multiset{KeyOf(line).value}
              && (KeyOf(line).value !in old(h.entries) ==> h.disruptions == old(h.disruptions))
  {
    var f := Fields(line);
    if |f| < 2 || f[0] != "ip" { return false; }
    var swapped := f;
    for i := 0 to |f|
      invariant swapped == f
      invariant forall j | 0 <= j < i :: !IsVerb(f[j])
    {
      if f[i] == "add" || f[i] == "del" {
        swapped := swapped[i := verb];
        VerbIs(f[1..], i - 1);
        VerbIs(swapped[1..], i - 1);
        assert EntryOf(swapped[1..]) == EntryOf(f[1..]);
        break;
      }
    }
    ok := h.Ip(swapped[1..]);
  }

  lemma VerbIs(args: Argv, i: nat)
    requires i < |args| && IsVerb(args[i])
    requires forall j | 0 <= j < i :: !IsVerb(args[j])
    ensures VerbAt(args) == i
  {
  }

  method ApplyPolicyLine(h: Kernel, line: string)
    modifies h`entries, h`disruptions
    ensures forall k :: h.entries[k] == Step(old(h.entries)[k], Touch(0, KeyOf(line) == Some(k)))
  {
    var _ := RunPolicyLine(h, line, "del");
    var _ := RunPolicyLine(h, line, "add");
  }

  lemma KeysExceptPush(lines: seq<string>, i: nat, keep: seq<string>)
    requires i < |lines|
    ensures KeysExcept(lines[..i + 1], keep) == KeysExcept(lines[..i], keep) + OwnKey(lines[i], keep)
  {
    assert lines[..i + 1][..i] == lines[..i];
  }

  /** Deletes the entry of every line that is not in `keep`, one copy for each line. */
  method DropLines(h: Kernel, lines: seq<string>, keep: seq<string>)
    modifies h`entries, h`disruptions
    ensures h.entries == old(h.entries) - multiset(KeysExcept(lines, keep))
    ensures KeysExcept(lines, keep) == [] ==> h.disruptions == old(h.disruptions)
  {
    for i := 0 to |lines|
      invariant h.entries == old(h.entries) - multiset(KeysExcept(lines[..i], keep))
      invariant KeysExcept(lines[..i], keep) == [] ==> h.disruptions == old(h.disruptions)
    {
      KeysExceptPush(lines, i, keep);
      MonusTwice(old(h.entries), KeysExcept(lines[..i], keep), OwnKey(lines[i], keep));
      if lines[i] !in keep {
        var _ := RunPolicyLine(h, lines[i], "del");
      }
    }
    assert lines[..|lines|] == lines;
  }

  lemma {:induction false} KeysInit(lines: seq<string>, i: nat, k: Argv)
    requires i < |lines|
    ensures k in KeysExcept(lines[..i + 1], []) <==> k in KeysExcept(lines[..i], []) || KeyOf(lines[i]) == Some(k)
  {
    assert lines[..i + 1][..i] == lines[..i];
  }

  method ApplyPolicyRoutes(h: Kernel, text: string)
    modifies h`entries, h`rules, h`disruptions
    ensures forall k :: h.entries[k] == Step(old(h.entries)[k], Touch(0, k in Keys(text)))
    ensures forall r :: h.rules[r] == Step(old(h.rules)[r], Touch(0, r in RulesOf(text)))
  {
    var lines := ReadPolicyLines(text);
    if |lines| == 0 { return; }
    for i := 0 to |lines|
      invariant h.rules == old(h.rules)
      invariant forall k :: h.entries[k] == Step(old(h.entries)[k], Touch(0, k in KeysExcept(lines[..i], [])))
    {
      forall k { KeysInit(lines, i, k); }
      ApplyPolicyLine(h, lines[i]);
    }
    assert lines[..|lines|] == lines;
    var subnets := PolicyFromSubnets(text);
    EnsureRules(h, ForwardRules(subnets));
  }

  method RemovePolicyRoutes(h: Kernel, text: string)
    modifies h`entries, h`rules, h`disruptions
    ensures h.entries == old(h.entries) - multiset(Keys(text))
    ensures h.rules == old(h.rules) - multiset(RulesOf(text))
  {
    var lines := ReadPolicyLines(text);
    DropLines(h, lines, []);
    var subnets := PolicyFromSubnets(text);
    DropRules(h, ForwardRules(subnets));
  }

  method StaleSubnets(oldSubs: seq<string>, wantSubs: seq<string>) returns (stale: seq<string>)
    ensures stale == Without(oldSubs, wantSubs)
  {
    stale := [];
    for i := 0 to |oldSubs|
      invariant stale == Without(oldSubs[..i], wantSubs)
    {
      assert oldSubs[..i + 1][..i] == oldSubs[..i];
      if oldSubs[i] !in wantSubs {
        stale := stale + [oldSubs[i]];
      }
    }
    assert oldSubs[..|oldSubs|] == oldSubs;
  }

  /** The first half of ReconcilePolicyRoutes: what the new text lost goes away. */
  method DropStalePolicy(h: Kernel, before: string, after: string)
    modifies h`entries, h`rules, h`disruptions
    ensures h.entries == old(h.entries) - multiset(KeysExcept(PolicyLines(before), PolicyLines(after)))
    ensures h.rules == old(h.rules) - multiset(StaleRules(before, after))
  {
    var wantLines := ReadPolicyLines(after);
    var oldLines := ReadPolicyLines(before);
    DropLines(h, oldLines, wantLines);
    var wantSubs := PolicyFromSubnets(after);
    var oldSubs := PolicyFromSubnets(before);
    var staleSubs := StaleSubnets(oldSubs, wantSubs);
    DropRules(h, ForwardRules(staleSubs));
  }

  method ReconcilePolicyRoutes(h: Kernel, before: string, after: string)
    modifies h`entries, h`rules, h`disruptions
    ensures forall k :: h.entries[k] == Step(old(h.entries)[k], PolicyTouch(before, after, k))
    ensures forall r :: h.rules[r] == Step(old(h.rules)[r], PolicyRuleTouch(before, after, r))
  {
    hide KeysExcept, PolicyLines, StaleRules, RulesOf, Keys;
    DropStalePolicy(h, before, after);
    ApplyPolicyRoutes(h, after);
  }

  /** The presence test never claims an entry that is gone. It may fail to see one that is there. */
  ghost predicate NeverOverclaims(probe: (multiset<Argv>, string) -> bool, text: string) {
    forall m, ln {:trigger probe(m, ln)} ::
      ln in PolicyLines(text) && KeyOf(ln).Some? && probe(m, ln) ==> KeyOf(ln).value in m
  }

  ghost predicate Accurate(probe: (multiset<Argv>, string) -> bool, text: string) {
    forall m, ln {:trigger probe(m, ln)} ::
      ln in PolicyLines(text) && KeyOf(ln).Some? ==> (probe(m, ln) <==> KeyOf(ln).value in m)
  }

  lemma NoLinesNoWork(text: string)
    requires PolicyLines(text) == []
    ensures Keys(text) == [] && RulesOf(text) == []
  {
  }

  /** Re-adds the lines the presence test does not find. */
  method EnsureLines(h: Kernel, ghost text: string, lines: seq<string>, probe: (multiset<Argv>, string) -> bool)
    requires lines == PolicyLines(text)
    modifies h`entries, h`disruptions
    ensures NeverOverclaims(probe, text) ==>
              forall k :: h.entries[k] == Step(old(h.entries)[k], Touch(0, k in KeysExcept(lines, [])))
    ensures Accurate(probe, text) ==> h.disruptions == old(h.disruptions)
  {
    hide KeyOf, PolicyLines;
    for i := 0 to |lines|
      invariant NeverOverclaims(probe, text) ==>
                  forall k :: h.entries[k] == Step(old(h.entries)[k], Touch(0, k in KeysExcept(lines[..i], [])))
      invariant Accurate(probe, text) ==> h.disruptions == old(h.disruptions)
    {
      forall k { KeysInit(lines, i, k); }
      assert lines[i] in lines;
      if probe(h.entries, lines[i]) { continue; }
      var _ := RunPolicyLine(h, lines[i], "del");
      var _ := RunPolicyLine(h, lines[i], "add");
    }
    assert lines[..|lines|] == lines;
  }

  /** The watchdog pass: `probe` is policyLinePresent read against the entries of the moment. */
  method EnsurePolicyRoutes(h: Kernel, text: string, probe: (multiset<Argv>, string) -> bool)
    modifies h`entries, h`rules, h`disruptions
    ensures NeverOverclaims(probe, text) ==>
              forall k :: h.entries[k] == Step(old(h.entries)[k], Touch(0, k in Keys(text)))
    ensures forall r :: h.rules[r] == Step(old(h.rules)[r], Touch(0, r in RulesOf(text)))
    ensures Accurate(probe, text) ==> h.disruptions == old(h.disruptions)
  {
    hide KeyOf, ForwardRules, FromSubnets, PolicyLines;
    var lines := ReadPolicyLines(text);
    if |lines| == 0 {
      NoLinesNoWork(text);
      return;
    }
    EnsureLines(h, text, lines, probe);
    var subnets := PolicyFromSubnets(text);
    EnsureRules(h, ForwardRules(subnets));
  }

  // ---- what it is for ---------------------------------------------------------------------------

  lemma {:induction false} KeysComeFromLines(lines: seq<string>, keep: seq<string>, k: Argv)
    ensures k in KeysExcept(lines, keep) <==> exists ln :: ln in lines && ln !in keep && KeyOf(ln) == Some(k)
  {
    if lines != [] {
      var init, last := lines[..|lines| - 1], lines[|lines| - 1];
      assert lines == init + [last];
      KeysComeFromLines(init, keep, k);
    }
  }

  lemma {:induction false} WithoutMembers(subnets: seq<string>, keep: seq<string>, s: string)
    ensures s in Without(subnets, keep) <==> s in subnets && s !in keep
  {
    if subnets != [] {
      assert subnets == subnets[..|subnets| - 1] + [subnets[|subnets| - 1]];
      WithoutMembers(subnets[..|subnets| - 1], keep, s);
    }
  }

  lemma {:induction false} ForwardRulesMembers(subnets: seq<string>, r: Rule)
    ensures r in ForwardRules(subnets) <==> exists s :: s in subnets && (r == AcceptFrom(s) || r == AcceptBack(s))
  {
    if subnets != [] {
      assert subnets == subnets[..|subnets| - 1] + [subnets[|subnets| - 1]];
      ForwardRulesMembers(subnets[..|subnets| - 1], r);
    }
  }

  /** An entry the new text lost is deleted, although the diff only compares text; an entry neither
      text mentions is left alone. */
  lemma DroppedEntryIsDeleted(before: string, after: string, k: Argv)
    ensures k in Keys(before) && k !in Keys(after) ==>
              PolicyTouch(before, after, k).drops >= 1 && !PolicyTouch(before, after, k).wants
    ensures k !in Keys(before) && k !in Keys(after) ==> PolicyTouch(before, after, k) == NOTHING
  {
    KeysComeFromLines(PolicyLines(before), [], k);
    KeysComeFromLines(PolicyLines(after), [], k);
    KeysComeFromLines(PolicyLines(before), PolicyLines(after), k);
  }

  lemma DroppedForwardIsDeleted(before: string, after: string, r: Rule)
    ensures r in RulesOf(before) && r !in RulesOf(after) ==>
              PolicyRuleTouch(before, after, r).drops >= 1 && !PolicyRuleTouch(before, after, r).wants
    ensures r !in RulesOf(before) && r !in RulesOf(after) ==> PolicyRuleTouch(before, after, r) == NOTHING
  {
    var was, now := FromSubnets(PolicyLines(before)), FromSubnets(PolicyLines(after));
    ForwardRulesMembers(was, r);
    ForwardRulesMembers(now, r);
    ForwardRulesMembers(Without(was, now), r);
    if r in RulesOf(before) && r !in RulesOf(after) {
      var s :| s in was && (r == AcceptFrom(s) || r == AcceptBack(s));
      WithoutMembers(was, now, s);
    } else if r !in RulesOf(before) && r in ForwardRules(Without(was, now)) {
      var s :| s in Without(was, now) && (r == AcceptFrom(s) || r == AcceptBack(s));
      WithoutMembers(was, now, s);
      assert false;
    }
  }

  /** The copies of one key after reconciling along a chain of texts. */
  function EntryChain(c: nat, texts: seq<string>, k: Argv): nat
    requires texts != []
  {
    if |texts| == 1 then c
    else Step(EntryChain(c, texts[..|texts| - 1], k), PolicyTouch(texts[|texts| - 2], texts[|texts| - 1], k))
  }

  function RuleChain(c: nat, texts: seq<string>, r: Rule): nat
    requires texts != []
  {
    if |texts| == 1 then c
    else Step(RuleChain(c, texts[..|texts| - 1], r), PolicyRuleTouch(texts[|texts| - 2], texts[|texts| - 1], r))
  }

  /** Some text of the chain mentions the entry. */
  predicate ChainMentions(texts: seq<string>, k: Argv) { exists t :: t in texts && k in Keys(t) }

  predicate ChainForwards(texts: seq<string>, r: Rule) { exists t :: t in texts && r in RulesOf(t) }

  /** Once a text mentioned an entry the host had, there are never more copies than the host had, and fewer
      while the newest text does not mention it. */
  lemma {:induction false} EntryChainBounds(base: nat, texts: seq<string>, k: Argv)
    requires texts != [] && Keys(texts[0]) == []
    ensures var c, listed := EntryChain(base, texts, k), k in Keys(texts[|texts| - 1]);
            && (!ChainMentions(texts, k) ==> c == base)
            && (ChainMentions(texts, k) && base > 0 ==> c <= base && (!listed ==> c < base))
            && (ChainMentions(texts, k) && base == 0 ==> c == if listed then 1 else 0)
  {
    hide Keys, KeysExcept, PolicyLines;
    if |texts| > 1 {
      var init, last := texts[..|texts| - 1], texts[|texts| - 1];
      assert texts == init + [last] && init[0] == texts[0] && init[|init| - 1] == texts[|texts| - 2];
      EntryChainBounds(base, init, k);
      DroppedEntryIsDeleted(init[|init| - 1], last, k);
      assert init[|init| - 1] in init;
    }
  }

  lemma {:induction false} RuleChainBounds(base: nat, texts: seq<string>, r: Rule)
    requires texts != [] && RulesOf(texts[0]) == []
    ensures var c, listed := RuleChain(base, texts, r), r in RulesOf(texts[|texts| - 1]);
            && (!ChainForwards(texts, r) ==> c == base)
            && (ChainForwards(texts, r) && base > 0 ==> c <= base && (!listed ==> c < base))
            && (ChainForwards(texts, r) && base == 0 ==> c == if listed then 1 else 0)
  {
    hide StaleRules, RulesOf;
    if |texts| > 1 {
      var init, last := texts[..|texts| - 1], texts[|texts| - 1];
      assert texts == init + [last] && init[0] == texts[0] && init[|init| - 1] == texts[|texts| - 2];
      RuleChainBounds(base, init, r);
      DroppedForwardIsDeleted(init[|init| - 1], last, r);
      assert init[|init| - 1] in init;
    }
  }

  /** Path independence. Whatever texts were applied on the way, the host ends with its own copies of an
      entry plus one if the last text mentions it, exactly when the host had none or no text of the chain
      mentions it. */
  lemma PolicyPathIndependence(base: nat, texts: seq<string>, k: Argv)
    requires texts != [] && Keys(texts[0]) == []
    ensures EntryChain(base, texts, k) == base + (if k in Keys(texts[|texts| - 1]) then 1 else 0)
            <==> base == 0 || !ChainMentions(texts, k)
  {
    hide Keys, EntryChain;
    EntryChainBounds(base, texts, k);
    assert texts[|texts| - 1] in texts;
  }

  lemma ForwardPathIndependence(base: nat, texts: seq<string>, r: Rule)
    requires texts != [] && RulesOf(texts[0]) == []
    ensures RuleChain(base, texts, r) == base + (if r in RulesOf(texts[|texts| - 1]) then 1 else 0)
            <==> base == 0 || !ChainForwards(texts, r)
  {
    hide RulesOf, RuleChain;
    RuleChainBounds(base, texts, r);
    assert texts[|texts| - 1] in texts;
  }

  /** Removing the last text of any chain restores what the host had before the first text, exactly when it
      had no copy or no text of the chain mentions the entry; otherwise copies of the operator are lost. */
  lemma ChainThenRemoveRestores(base: nat, rules: nat, texts: seq<string>, k: Argv, r: Rule)
    requires texts != [] && Keys(texts[0]) == [] && RulesOf(texts[0]) == []
    ensures Step(EntryChain(base, texts, k), RemoveTouch(texts[|texts| - 1], k)) == base
            <==> base == 0 || !ChainMentions(texts, k)
    ensures Step(RuleChain(rules, texts, r), RemoveRuleTouch(texts[|texts| - 1], r)) == rules
            <==> rules == 0 || !ChainForwards(texts, r)
  {
    hide RulesOf, EntryChain, RuleChain, Keys;
    EntryChainBounds(base, texts, k);
    RuleChainBounds(rules, texts, r);
    assert texts[|texts| - 1] in texts;
  }

  /** Applying a text and removing it again restores the count of an entry exactly when the text does
      not mention the entry or the host did not have it: an entry the operator had already installed
      by hand is deleted with the text. */
  lemma ApplyThenRemoveRestoresIff(base: nat, text: string, k: Argv)
    ensures Step(Step(base, PolicyTouch("", text, k)), RemoveTouch(text, k)) == base
            <==> k !in Keys(text) || base == 0
  {
    hide KeysExcept, PolicyLines;
    EmptyTextHasNoLines();
    DroppedEntryIsDeleted("", text, k);
  }

  lemma EmptyTextHasNoLines()
    ensures PolicyLines("") == [] && Keys("") == [] && RulesOf("") == []
  {
    assert Split("", '\n') == [""];
  }
}
