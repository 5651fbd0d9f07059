/** What the operator's custom lines mean, read off their text, and that extras/extras.go takes exactly that from
    them. */
module CustomMeaning {
  import opened Text
  import opened Host
  import opened Types
  import opened Counts
  import opened ExtrasParser
  import opened ExtrasReconcile
  import opened SyncEffects

  // ---- pasted commands --------------------------------------------------------------------------

  const ROUTE_COMMANDS: set<seq<string>> := {
    ["ip", "route", "add"], ["ip", "route", "replace"], ["ip", "-4", "route", "add"],
    ["ip", "-4", "route", "replace"], ["ip", "route"], ["ip", "-4", "route"]}

  const RULE_COMMANDS: set<seq<string>> := {
    ["ip", "rule", "add"], ["ip", "-4", "rule", "add"], ["ip", "rule"], ["ip", "-4", "rule"]}

  const NAT_COMMANDS: set<seq<string>> := {
    ["iptables", "-t", "nat", "-A", "POSTROUTING"], ["iptables", "-A", "POSTROUTING", "-t", "nat"],
    ["iptables", "-t", "nat", "-I", "POSTROUTING"], ["iptables", "-t", "nat", "-A"], ["iptables", "-t", "nat"]}

  /** The text starts with these words, one blank after each. */
  ghost predicate Heads(p: seq<string>, t: string) { Join(p, " ") + " " <= t }

  /** The text starts with the command p, and with no longer one. */
  ghost predicate StartsWith(t: string, commands: set<seq<string>>, p: seq<string>) {
    p in commands && Heads(p, t) && forall q | q in commands && Heads(q, t) :: |q| <= |p|
  }

  /** The words of a line without the command an operator pasted in front of them. */
  ghost predicate Says(line: string, commands: set<seq<string>>, f: Argv) {
    var t := TrimSpace(line);
    || (exists p :: StartsWith(t, commands, p) && f == Fields(t[|Join(p, " ")|..]))
    || ((forall q | q in commands :: !Heads(q, t)) && f == Fields(line))
  }

  /** The list holds these commands, and tries none before a longer one that starts with it. */
  ghost predicate Tries(prefixes: seq<seq<string>>, commands: set<seq<string>>) {
    && (forall p :: p in commands <==> p in prefixes)
    && (forall i | 0 <= i < |prefixes| :: AllTokens(prefixes[i]))
    && forall i, j | 0 <= i < j < |prefixes| :: !(prefixes[i] <= prefixes[j])
  }

  lemma {:induction false} FirstMatch(t: string, prefixes: seq<seq<string>>) returns (n: nat)
    ensures n <= |prefixes| && forall i | 0 <= i < n :: !Heads(prefixes[i], t)
    ensures n < |prefixes| ==>
              Heads(prefixes[n], t) && StripFirst(t, prefixes) == TrimSpace(t[|Join(prefixes[n], " ")|..])
    ensures n == |prefixes| ==> StripFirst(t, prefixes) == t
  {
    hide Join, TrimSpace;
    if prefixes == [] || HasPrefix(t, Join(prefixes[0], " ") + " ") { return 0; }
    n := FirstMatch(t, prefixes[1..]);
    n := n + 1;
  }

  lemma TextsNest(p: string, q: string, t: string)
    requires p + " " <= t && q + " " <= t && |p| < |q|
    ensures HasPrefix(q, p + " ")
  {
  }

  lemma SameText(p: string, q: string, t: string)
    requires p + " " <= t && q + " " <= t && |p| == |q|
    ensures p == q
  {
    assert p == t[..|p|] && q == t[..|q|];
  }

  /** Of two commands a text starts with, one starts with the other. */
  lemma WordsNest(p: seq<string>, q: seq<string>, t: string)
    requires AllTokens(p) && AllTokens(q) && Heads(p, t) && Heads(q, t)
    ensures p <= q || q <= p
  {
    hide Join, AllTokens;
    var a, b := Join(p, " "), Join(q, " ");
    if |a| == |b| {
      SameText(a, b, t);
      JoinInjective(p, q);
    } else if |a| < |b| {
      TextsNest(a, b, t);
      PrefixWords(q, p);
    } else {
      TextsNest(b, a, t);
      PrefixWords(p, q);
    }
  }

  /** Stripping gives the words the line says: the longest command it starts with is taken off. */
  lemma StripSays(line: string, prefixes: seq<seq<string>>, commands: set<seq<string>>, f: Argv)
    requires Tries(prefixes, commands)
    ensures Says(line, commands, f) <==> f == Fields(StripPrefix(line, prefixes))
  {
    hide Join, TrimSpace, Fields, StripFirst, Heads, AllTokens;
    var t := TrimSpace(line);
    var n := FirstMatch(t, prefixes);
    TrimmedFields(line);
    if n < |prefixes| {
      var p := prefixes[n];
      HeadLength(p, t);
      TrimmedFields(t[|Join(p, " ")|..]);
      forall q | q in commands && Heads(q, t) ensures q <= p {
        var j :| 0 <= j < |prefixes| && prefixes[j] == q;
        WordsNest(p, q, t);
      }
      assert StartsWith(t, commands, p);
    }
  }

  lemma HeadLength(p: seq<string>, t: string)
    requires Heads(p, t)
    ensures |Join(p, " ")| <= |t|
  {
  }

  lemma Letters()
    ensures "add" != "replace" && "add" != "-4" && "route" != "-4" && "rule" != "-4" && "-A" != "-t" && "-A" != "-I"
  {
    assert |"add"| == 3 && |"replace"| == 7 && |"-4"| == 2 && |"route"| == 5 && |"rule"| == 4;
    assert "-A"[1] == 'A' && "-t"[1] == 't' && "-I"[1] == 'I';
  }

  /** Two word lists that differ early do not start with one another. */
  lemma DifferAt(p: seq<string>, q: seq<string>, i: nat)
    requires i < |p| && i < |q| && p[i] != q[i]
    ensures !(p <= q)
  {
  }

  lemma RouteCommands()
    ensures Tries(ROUTE_PREFIXES, ROUTE_COMMANDS)
  {
    hide AllTokens;
    RoutePrefixes();
    Letters();
    DifferAt(["ip", "route", "add"], ["ip", "route", "replace"], 2);
    DifferAt(["ip", "route", "add"], ["ip", "-4", "route", "add"], 1);
    DifferAt(["ip", "route", "add"], ["ip", "-4", "route", "replace"], 1);
    DifferAt(["ip", "route", "add"], ["ip", "-4", "route"], 1);
    DifferAt(["ip", "route", "replace"], ["ip", "-4", "route", "add"], 1);
    DifferAt(["ip", "route", "replace"], ["ip", "-4", "route", "replace"], 1);
    DifferAt(["ip", "route", "replace"], ["ip", "-4", "route"], 1);
    DifferAt(["ip", "-4", "route", "add"], ["ip", "-4", "route", "replace"], 3);
    DifferAt(["ip", "route"], ["ip", "-4", "route"], 1);
  }

  lemma RuleCommands()
    ensures Tries(RULE_PREFIXES, RULE_COMMANDS)
  {
    hide AllTokens;
    RulePrefixes();
    Letters();
    DifferAt(["ip", "rule", "add"], ["ip", "-4", "rule", "add"], 1);
    DifferAt(["ip", "rule", "add"], ["ip", "-4", "rule"], 1);
    DifferAt(["ip", "rule"], ["ip", "-4", "rule"], 1);
  }

  lemma NatCommands()
    ensures Tries(NAT_PREFIXES, NAT_COMMANDS)
  {
    hide AllTokens;
    NatPrefixes();
    Letters();
    DifferAt(["iptables", "-t", "nat", "-A", "POSTROUTING"], ["iptables", "-A", "POSTROUTING", "-t", "nat"], 1);
    DifferAt(["iptables", "-t", "nat", "-A", "POSTROUTING"], ["iptables", "-t", "nat", "-I", "POSTROUTING"], 3);
    DifferAt(["iptables", "-A", "POSTROUTING", "-t", "nat"], ["iptables", "-t", "nat", "-I", "POSTROUTING"], 1);
  }

  // ---- sentences --------------------------------------------------------------------------------

  /** `<destination> via <gateway> [table <n>]` */
  ghost predicate RouteSentence(line: string, f: Argv) {
    Says(line, ROUTE_COMMANDS, f) && (|f| == 3 || (|f| == 5 && f[3] == "table")) && f[1] == "via"
  }

  /** Pairs of a keyword and a value, `from` first, one of them `lookup`. */
  ghost predicate RuleSentence(line: string, f: Argv) {
    && Says(line, RULE_COMMANDS, f) && |f| > 0 && |f| % 2 == 0 && f[0] == "from"
    && (forall i | 0 <= i < |f| && i % 2 == 0 ::
          f[i] == "from" || f[i] == "to" || f[i] == "lookup" || f[i] == "priority")
    && exists i | 0 <= i < |f| && i % 2 == 0 :: f[i] == "lookup"
  }

  ghost predicate NatOption(w: string) {
    || w == "-s" || w == "--source" || w == "-d" || w == "--destination" || w == "-o" || w == "--out-interface"
    || w == "-p" || w == "--protocol" || w == "--dport" || w == "--sport" || w == "-j" || w == "--to-source"
  }

  /** Two spellings of one capital letter: itself, its small form, and the two foreign letters Go's ToUpper maps
      to it. */
  ghost predicate SpellsLetter(c: char, capital: char) {
    || c == capital || c as int == capital as int + 32
    || (capital == 'S' && c == '\U{17F}') || (capital == 'I' && c == '\U{131}')
  }

  ghost predicate SpellsTarget(w: string, target: string) {
    |w| == |target| && forall i | 0 <= i < |w| :: SpellsLetter(w[i], target[i])
  }

  ghost predicate GoodTarget(w: string) { SpellsTarget(w, "MASQUERADE") || SpellsTarget(w, "SNAT") }

  /** Pairs of a known option and a value, with no target but masquerading and source translation. */
  ghost predicate NatSentence(line: string, f: Argv) {
    && Says(line, NAT_COMMANDS, f) && |f| > 0 && |f| % 2 == 0
    && (forall i | 0 <= i < |f| && i % 2 == 0 :: NatOption(f[i]))
    && forall i | 0 <= i < |f| - 1 && i % 2 == 0 && f[i] == "-j" :: GoodTarget(f[i + 1])
  }

  /** The route parser accepts exactly these sentences. */
  lemma RouteSentenceIff(line: string, f: Argv)
    ensures RouteSentence(line, f) <==> RouteOf(line) == Some(f)
  {
    hide Says, StripPrefix, Fields, Tries;
    RouteCommands();
    StripSays(line, ROUTE_PREFIXES, ROUTE_COMMANDS, f);
  }

  lemma RuleSentenceIff(line: string, f: Argv)
    ensures RuleSentence(line, f) <==> RuleOf(line) == Some(f)
  {
    hide Says, StripPrefix, Fields, Tries;
    RuleCommands();
    StripSays(line, RULE_PREFIXES, RULE_COMMANDS, f);
  }

  lemma TargetIff(w: string, target: string)
    requires forall i | 0 <= i < |target| :: 'A' <= target[i] <= 'Z'
    ensures SpellsTarget(w, target) <==> Upper(w) == target
  {
    if Upper(w) == target {
      forall i | 0 <= i < |w| ensures SpellsLetter(w[i], target[i]) { assert Upper(w)[i] == ToUpper(w[i]); }
    }
  }

  lemma NatSentenceIff(line: string, f: Argv)
    ensures NatSentence(line, f) <==> NatOf(line) == Some(f)
  {
    hide Says, StripPrefix, Fields, Tries, Upper, SpellsTarget;
    NatCommands();
    StripSays(line, NAT_PREFIXES, NAT_COMMANDS, f);
    forall w ensures NatTarget(w) <==> GoodTarget(w) {
      TargetIff(w, "MASQUERADE");
      TargetIff(w, "SNAT");
    }
  }

  // ---- lists of lines ---------------------------------------------------------------------------

  /** Trimming a line does not change what it says. */
  lemma TrimmedLine(line: string)
    ensures RouteOf(TrimSpace(line)) == RouteOf(line) && RuleOf(TrimSpace(line)) == RuleOf(line)
    ensures NatOf(TrimSpace(line)) == NatOf(line)
  {
    hide TrimSpace, Fields, StripFirst, NatGrammar;
    TrimTwice(line);
  }

  /** Some line asks for r as a NAT rule. */
  ghost predicate AsksNat(lines: seq<string>, r: Rule) {
    r.table == "nat" && r.chain == "POSTROUTING"
    && exists line :: line in lines && Meant(line) && NatSentence(line, r.args)
  }

  /** Some line asks for entry k as an `ip` rule. */
  ghost predicate AsksRule(lines: seq<string>, k: Argv) {
    |k| >= 2 && k[0] == "rule" && k[1] == "add"
    && exists line :: line in lines && Meant(line) && RuleSentence(line, k[2..])
  }

  ghost predicate SendsBy(f: Argv, k: RouteKey, via: Argv) {
    |f| >= 3 && k == RouteKey(f[0], if |f| == 5 then f[4] else "main") && via == ["via", f[2]]
  }

  /** The line sends destination k this way. */
  ghost predicate RouteSays(line: string, k: RouteKey, via: Argv) {
    Meant(line) && exists f :: RouteSentence(line, f) && SendsBy(f, k, via)
  }

  /** Line i is the last one to say anything about destination k, and sends it this way. */
  ghost predicate SaysLast(lines: seq<string>, k: RouteKey, via: Argv, i: int) {
    && 0 <= i < |lines| && RouteSays(lines[i], k, via)
    && forall j, other | i < j < |lines| :: !RouteSays(lines[j], k, other)
  }

  lemma {:induction false} ParsedIff(parse: string -> Option<Argv>, lines: seq<string>, a: Argv)
    ensures a in Parsed(parse, lines) <==> exists ln :: ln in lines && parse(ln) == Some(a)
  {
    if lines != [] {
      var init, last := lines[..|lines| - 1], lines[|lines| - 1];
      assert lines == init + [last];
      ParsedIff(parse, init, a);
    }
  }

  /** The custom NAT rules the code takes from the lines are these and no others. */
  lemma AsksNatIff(lines: seq<string>, r: Rule)
    ensures AsksNat(lines, r) <==> Copies(NatList(lines), RuleArgs(r)) > 0
  {
    hide TrimSpace, Meant, Kept, NatSentence, NatOf, Parsed;
    ParsedIff(NatOf, Kept(lines), r.args);
    if line :| line in lines && Meant(line) && NatSentence(line, r.args) {
      KeptMembers(lines, TrimSpace(line));
      NatSentenceIff(line, r.args);
      TrimmedLine(line);
      assert TrimSpace(line) in Kept(lines);
    }
    if ln :| ln in Kept(lines) && NatOf(ln) == Some(r.args) {
      KeptMembers(lines, ln);
      var line :| line in lines && Meant(line) && ln == TrimSpace(line);
      NatSentenceIff(line, r.args);
      TrimmedLine(line);
    }
  }

  lemma EntryArgsIs(k: Argv)
    ensures EntryArgs(k).Some? <==> |k| >= 2 && k[0] == "rule" && k[1] == "add"
    ensures EntryArgs(k).Some? ==> EntryArgs(k).value == k[2..]
  {
    if |k| >= 2 { assert k[..2] == [k[0], k[1]]; }
  }

  /** And so are the `ip` rules. */
  lemma AsksRuleIff(lines: seq<string>, k: Argv)
    ensures AsksRule(lines, k) <==> Copies(RuleList(lines), EntryArgs(k)) > 0
  {
    hide TrimSpace, Meant, Kept, RuleSentence, RuleOf, Parsed, EntryArgs;
    EntryArgsIs(k);
    if EntryArgs(k).Some? {
      var f := k[2..];
      ParsedIff(RuleOf, Kept(lines), f);
      if line :| line in lines && Meant(line) && RuleSentence(line, f) {
        KeptMembers(lines, TrimSpace(line));
        RuleSentenceIff(line, f);
        TrimmedLine(line);
        assert TrimSpace(line) in Kept(lines);
      }
      if ln :| ln in Kept(lines) && RuleOf(ln) == Some(f) {
        KeptMembers(lines, ln);
        var line :| line in lines && Meant(line) && ln == TrimSpace(line);
        RuleSentenceIff(line, f);
        TrimmedLine(line);
      }
    }
  }

  lemma LastViaPush(list: seq<Argv>, a: Argv, k: RouteKey)
    ensures LastVia(list + [a], k) == if KeyFor(a) == k then Some(ViaFor(a)) else LastVia(list, k)
  {
    hide KeyFor, ViaFor;
    assert (list + [a])[..|list|] == list;
  }

  lemma KeptParsed(kept: seq<string>, ln: string)
    ensures Parsed(RouteCommand, kept + [ln])
            == if RouteCommand(ln).Some? then Parsed(RouteCommand, kept) + [RouteCommand(ln).value]
               else Parsed(RouteCommand, kept)
  {
    hide RouteCommand;
    assert (kept + [ln])[..|kept|] == kept;
  }

  /** One more line of custom routes. */
  lemma RouteListPush(lines: seq<string>, n: nat, k: RouteKey)
    requires n < |lines|
    ensures LastVia(RouteList(lines[..n + 1]), k)
            == if Meant(lines[n]) && RouteCommand(lines[n]).Some? && KeyFor(RouteCommand(lines[n]).value) == k
               then Some(ViaFor(RouteCommand(lines[n]).value)) else LastVia(RouteList(lines[..n]), k)
  {
    hide TrimSpace, Meant, Kept, RouteOf, KeyFor, ViaFor, Parsed, LastVia;
    KeptPush(lines, n);
    TrimmedLine(lines[n]);
    KeptParsed(Kept(lines[..n]), TrimSpace(lines[n]));
    if RouteCommand(lines[n]).Some? { LastViaPush(RouteList(lines[..n]), RouteCommand(lines[n]).value, k); }
  }

  lemma CommandSends(line: string, k: RouteKey, via: Argv)
    requires RouteCommand(line).Some?
    ensures SendsBy(RouteOf(line).value, k, via) <==>
              k == KeyFor(RouteCommand(line).value) && via == ViaFor(RouteCommand(line).value)
  {
    hide RouteOf, KeyFor, ViaFor;
    CommandShape(line);
    var f := RouteOf(line).value;
    assert RouteCommand(line).value == ["route", "replace"] + f;
  }

  lemma RouteSaysIff(line: string, k: RouteKey, via: Argv)
    ensures RouteSays(line, k, via) <==>
              && Meant(line) && RouteCommand(line).Some?
              && k == KeyFor(RouteCommand(line).value) && via == ViaFor(RouteCommand(line).value)
  {
    hide Meant, RouteSentence, RouteOf, KeyFor, ViaFor, SendsBy;
    if RouteCommand(line).Some? {
      CommandSends(line, k, via);
      RouteSentenceIff(line, RouteOf(line).value);
    }
    if f :| RouteSentence(line, f) && SendsBy(f, k, via) { RouteSentenceIff(line, f); }
  }

  /** Among the first n lines, line i is the last one to say anything about destination k. */
  ghost predicate SaysLastOf(lines: seq<string>, n: nat, k: RouteKey, via: Argv, i: int) {
    && 0 <= i < n <= |lines| && RouteSays(lines[i], k, via)
    && forall j, other | i < j < n :: !RouteSays(lines[j], k, other)
  }

  /** The way the custom routes send a destination is that of the last line that says anything about it. */
  /** What one line says about a destination. */
  lemma LineWay(line: string, k: RouteKey) returns (way: Option<Argv>)
    ensures way == if Meant(line) && RouteCommand(line).Some? && KeyFor(RouteCommand(line).value) == k
            then Some(ViaFor(RouteCommand(line).value)) else None
    ensures forall via :: RouteSays(line, k, via) <==> way == Some(via)
  {
    hide Meant, RouteCommand, RouteSays, KeyFor, ViaFor;
    way := if Meant(line) && RouteCommand(line).Some? && KeyFor(RouteCommand(line).value) == k
           then Some(ViaFor(RouteCommand(line).value)) else None;
    forall via ensures RouteSays(line, k, via) <==> way == Some(via) { RouteSaysIff(line, k, via); }
  }

  lemma {:induction false} LastViaOf(lines: seq<string>, n: nat, k: RouteKey, via: Argv)
    requires n <= |lines|
    ensures LastVia(RouteList(lines[..n]), k) == Some(via) <==> exists i :: SaysLastOf(lines, n, k, via, i)
  {
    hide RouteSays, Meant, RouteCommand, RouteList, KeyFor, ViaFor, LastVia, SaysLastOf;
    if n == 0 {
      NothingListed(lines, k);
    } else {
      LastViaOf(lines, n - 1, k, via);
      RouteListPush(lines, n - 1, k);
      var way := LineWay(lines[n - 1], k);
      SaysPush(lines, n - 1, n, k, via, way);
    }
  }

  lemma NothingListed(lines: seq<string>, k: RouteKey)
    ensures LastVia(RouteList(lines[..0]), k) == None
    ensures forall via, i :: !SaysLastOf(lines, 0, k, via, i)
  {
    assert lines[..0] == [];
  }

  lemma SaysPush(lines: seq<string>, m: nat, n: nat, k: RouteKey, via: Argv, way: Option<Argv>)
    requires m < |lines| && n == m + 1 && forall v :: RouteSays(lines[m], k, v) <==> way == Some(v)
    ensures (exists i :: SaysLastOf(lines, n, k, via, i)) <==>
              if way.Some? then way.value == via else exists i :: SaysLastOf(lines, m, k, via, i)
  {
    hide RouteSays;
    if way == Some(via) { assert SaysLastOf(lines, n, k, via, m); }
    if i :| SaysLastOf(lines, m, k, via, i) {
      if way.None? { assert SaysLastOf(lines, n, k, via, i); }
    }
    if i :| SaysLastOf(lines, n, k, via, i) {
      if i < m && way.None? { assert SaysLastOf(lines, m, k, via, i); }
    }
  }

  lemma LastViaIff(lines: seq<string>, k: RouteKey, via: Argv)
    ensures LastVia(RouteList(lines), k) == Some(via) <==> exists i :: SaysLast(lines, k, via, i)
  {
    hide RouteSays, RouteList, LastVia;
    LastViaOf(lines, |lines|, k, via);
    assert lines[..|lines|] == lines;
    forall i ensures SaysLast(lines, k, via, i) <==> SaysLastOf(lines, |lines|, k, via, i) { }
  }

  // ---- the lines of several interfaces ----------------------------------------------------------

  /** The last line of the interface that says anything about destination k sends it this way. */
  ghost predicate Directs(iface: Interface, k: RouteKey, via: Argv) {
    exists i :: SaysLast(iface.extras.routes, k, via, i)
  }

  /** Among the first n interfaces, i is the last one with such a line. */
  ghost predicate DirectsLastOf(ifaces: seq<Interface>, n: nat, k: RouteKey, via: Argv, i: int) {
    && 0 <= i < n <= |ifaces| && Directs(ifaces[i], k, via)
    && forall j, other | i < j < n :: !Directs(ifaces[j], k, other)
  }

  lemma LastViaConcat(a: seq<Argv>, b: seq<Argv>, k: RouteKey)
    ensures LastVia(a + b, k) == if LastVia(b, k).Some? then LastVia(b, k) else LastVia(a, k)
  {
    hide KeyFor, ViaFor;
    if b == [] {
      assert a + b == a;
    } else {
      var init := b[..|b| - 1];
      LastViaConcat(a, init, k);
      assert a + b == (a + init) + [b[|b| - 1]];
      LastViaPush(a + init, b[|b| - 1], k);
    }
  }

  lemma DirectsPush(ifaces: seq<Interface>, m: nat, n: nat, k: RouteKey, via: Argv, way: Option<Argv>)
    requires m < |ifaces| && n == m + 1 && forall v :: Directs(ifaces[m], k, v) <==> way == Some(v)
    ensures (exists i :: DirectsLastOf(ifaces, n, k, via, i)) <==>
              if way.Some? then way.value == via else exists i :: DirectsLastOf(ifaces, m, k, via, i)
  {
    hide Directs;
    if way == Some(via) { assert DirectsLastOf(ifaces, n, k, via, m); }
    if i :| DirectsLastOf(ifaces, m, k, via, i) {
      if way.None? { assert DirectsLastOf(ifaces, n, k, via, i); }
    }
    if i :| DirectsLastOf(ifaces, n, k, via, i) {
      if i < m && way.None? { assert DirectsLastOf(ifaces, m, k, via, i); }
    }
  }

  /** The way the watchdog sends a destination is that of the last line about it of the last interface that has
      one. */
  lemma {:induction false} WatchMeans(ifaces: seq<Interface>, n: nat, k: RouteKey, via: Argv)
    requires n <= |ifaces|
    ensures LastVia(CustomRoutes(ifaces[..n]), k) == Some(via) <==> exists i :: DirectsLastOf(ifaces, n, k, via, i)
  {
    hide Directs, RouteList, LastVia, DirectsLastOf;
    if n == 0 {
      NothingWatched(ifaces, k);
    } else {
      var m := n - 1;
      assert ifaces[..n][..m] == ifaces[..m] && ifaces[..n][m] == ifaces[m];
      WatchMeans(ifaces, m, k, via);
      var way := LastVia(RouteList(ifaces[m].extras.routes), k);
      LastViaConcat(CustomRoutes(ifaces[..m]), RouteList(ifaces[m].extras.routes), k);
      forall v ensures Directs(ifaces[m], k, v) <==> way == Some(v) { DirectsIff(ifaces[m], k, v); }
      DirectsPush(ifaces, m, n, k, via, way);
    }
  }

  lemma DirectsIff(iface: Interface, k: RouteKey, via: Argv)
    ensures Directs(iface, k, via) <==> LastVia(RouteList(iface.extras.routes), k) == Some(via)
  {
    hide SaysLast, RouteList, LastVia;
    LastViaIff(iface.extras.routes, k, via);
  }

  lemma NothingWatched(ifaces: seq<Interface>, k: RouteKey)
    ensures LastVia(CustomRoutes(ifaces[..0]), k) == None
    ensures forall via, i :: !DirectsLastOf(ifaces, 0, k, via, i)
  {
    assert ifaces[..0] == [];
  }

  // ---- what a change of the lines does ----------------------------------------------------------

  /** From at most one copy: what the new lines ask for is there, what only the old ones did is gone, nothing else
      moves. */
  lemma CustomChanged(before: Extras, after: Extras, r: Rule, k: Argv, c: nat)
    requires c <= 1
    ensures Step(c, NatLineTouch(before.natLines, after.natLines, r))
            == if AsksNat(after.natLines, r) then 1 else if AsksNat(before.natLines, r) then 0 else c
    ensures Step(c, RuleTouch(before.rules, after.rules, k))
            == if AsksRule(after.rules, k) then 1 else if AsksRule(before.rules, k) then 0 else c
  {
    hide AsksNat, AsksRule, Copies, NatList, RuleList;
    AsksNatIff(before.natLines, r);
    AsksNatIff(after.natLines, r);
    AsksRuleIff(before.rules, k);
    AsksRuleIff(after.rules, k);
  }

  /** A dropped line takes up to eight copies along. */
  lemma DroppedTakesEight(before: Extras, after: Extras, r: Rule, c: nat)
    requires AsksNat(before.natLines, r) && !AsksNat(after.natLines, r) && c <= 8
    ensures Step(c, NatLineTouch(before.natLines, after.natLines, r)) == 0
  {
    hide AsksNat, Copies, NatList;
    AsksNatIff(before.natLines, r);
    AsksNatIff(after.natLines, r);
  }

  /** A destination after the lines changed. */
  lemma RoutesMean(routes: Routes, before: seq<string>, after: seq<string>, k: RouteKey, via: Argv)
    requires exists i :: SaysLast(after, k, via, i)
    ensures var r := RoutesAfter(routes, before, after);
            (k in r <==> !Respelled(before, after, k)) && (k in r ==> r[k] == via)
  {
    hide SaysLast, RoutesAfter, Respelled, RouteList, LastVia;
    LastViaIff(after, k, via);
    WantedRouteOutcome(routes, before, after, k);
  }
}
