/** extras/extras.go, parsing: what the operator may write, and why the joined argv is a sound key. */
module ExtrasParser {
  import opened Text
  import opened Host

  // Command words an operator may paste in front of the arguments, in the order they are tried.
  const ROUTE_PREFIXES: seq<seq<string>> := [
    ["ip", "route", "add"], ["ip", "route", "replace"], ["ip", "-4", "route", "add"],
    ["ip", "-4", "route", "replace"], ["ip", "route"], ["ip", "-4", "route"]]

  const RULE_PREFIXES: seq<seq<string>> := [
    ["ip", "rule", "add"], ["ip", "-4", "rule", "add"], ["ip", "rule"], ["ip", "-4", "rule"]]

  const NAT_PREFIXES: seq<seq<string>> := [
    ["iptables", "-t", "nat", "-A", "POSTROUTING"], ["iptables", "-A", "POSTROUTING", "-t", "nat"],
    ["iptables", "-t", "nat", "-I", "POSTROUTING"], ["iptables", "-t", "nat", "-A"], ["iptables", "-t", "nat"]]

  /** Removes the first listed prefix the line starts with. */
  function StripFirst(line: string, prefixes: seq<seq<string>>): string {
    if prefixes == [] then line
    else
      var p := Join(prefixes[0], " ");
      if HasPrefix(line, p + " ") then TrimSpace(line[|p|..]) else StripFirst(line, prefixes[1..])
  }

  function StripPrefix(line: string, prefixes: seq<seq<string>>): string {
    StripFirst(TrimSpace(line), prefixes)
  }

  // ---- grammars ---------------------------------------------------------------------------------

  /** `<cidr> via <gateway> [table <n>]` */
  predicate RouteGrammar(f: Argv) {
    (|f| == 3 || (|f| == 5 && f[3] == "table")) && f[1] == "via"
  }

  predicate RuleKeyword(w: string) { w in {"from", "to", "lookup", "priority"} }

  /** Keyword/value pairs, `from` first, one of them `lookup`. */
  predicate RuleGrammar(f: Argv) {
    && |f| > 0 && f[0] == "from" && |f| % 2 == 0
    && (forall i | 0 <= i < |f| && i % 2 == 0 :: RuleKeyword(f[i]))
    && exists i | 0 <= i < |f| && i % 2 == 0 :: f[i] == "lookup"
  }

  predicate NatKeyword(w: string) {
    w in {"-s", "--source", "-d", "--destination", "-o", "--out-interface", "-p", "--protocol",
          "--dport", "--sport", "-j", "--to-source"}
  }

  /** unicode.ToUpper as far as it can produce the letters of a target name: ASCII, plus the two
      characters outside ASCII whose upper case is an ASCII letter. */
  function ToUpper(c: char): char {
    if 'a' <= c <= 'z' then (c as int - 32) as char
    else if c == '\U{17F}' then 'S'
    else if c == '\U{131}' then 'I'
    else c
  }

  function Upper(s: string): string {
    seq(|s|, i requires 0 <= i < |s| => ToUpper(s[i]))
  }

  predicate NatTarget(w: string) { Upper(w) in {"MASQUERADE", "SNAT"} }

  /** Option/value pairs, every -j target MASQUERADE or SNAT. */
  predicate NatGrammar(f: Argv) {
    && |f| > 0 && |f| % 2 == 0
    && (forall i | 0 <= i < |f| && i % 2 == 0 :: NatKeyword(f[i]))
    && (forall i | 0 <= i < |f| && i % 2 == 0 && f[i] == "-j" :: NatTarget(f[i + 1]))
  }

  /** The words of a line when they form a sentence of its grammar. */
  function RouteOf(line: string): Option<Argv> {
    var f := Fields(StripPrefix(line, ROUTE_PREFIXES));
    if RouteGrammar(f) then Some(f) else None
  }

  function RuleOf(line: string): Option<Argv> {
    var f := Fields(StripPrefix(line, RULE_PREFIXES));
    if RuleGrammar(f) then Some(f) else None
  }

  function NatOf(line: string): Option<Argv> {
    var f := Fields(StripPrefix(line, NAT_PREFIXES));
    if NatGrammar(f) then Some(f) else None
  }

  /** The argv of the `ip route replace` a line asks for. */
  function RouteCommand(line: string): Option<Argv> {
    if RouteOf(line).Some? then Some(["route", "replace"] + RouteOf(line).value) else None
  }

  // ---- the parsers ------------------------------------------------------------------------------

  method ParseRouteLine(line: string) returns (args: Option<Argv>)
    ensures args == RouteCommand(line)
  {
    var f := Fields(StripPrefix(line, ROUTE_PREFIXES));
    if |f| < 3 || f[1] != "via" { return None; }
    var out := ["route", "replace", f[0], "via", f[2]];
    if |f| > 3 {
      if |f| != 5 || f[3] != "table" { return None; }
      out := out + ["table", f[4]];
    }
    assert out == ["route", "replace"] + f;
    return Some(out);
  }

  method ParseRuleLine(line: string) returns (args: Option<Argv>)
    ensures args == RuleOf(line)
  {
    var f := Fields(StripPrefix(line, RULE_PREFIXES));
    if |f| < 3 || f[0] != "from" { return None; }
    var hasLookup := false;
    var i := 0;
    while i < |f|
      invariant 0 <= i <= |f| && i % 2 == 0
      invariant forall j | 0 <= j < i && j % 2 == 0 :: RuleKeyword(f[j])
      invariant hasLookup <==> exists j | 0 <= j < i && j % 2 == 0 :: f[j] == "lookup"
    {
      if f[i] == "from" || f[i] == "to" {
        if i + 1 >= |f| { return None; }
        i := i + 1;
      } else if f[i] == "lookup" {
        if i + 1 >= |f| { return None; }
        hasLookup := true;
        i := i + 1;
      } else if f[i] == "priority" {
        if i + 1 >= |f| { return None; }
        i := i + 1;
      } else {
        return None;
      }
      i := i + 1;
    }
    if !hasLookup { return None; }
    return Some(f);
  }

  method ParseNatLine(line: string) returns (args: Option<Argv>)
    ensures args == NatOf(line)
  {
    hide StripPrefix, Fields, NatKeyword, Upper;
    var f := Fields(StripPrefix(line, NAT_PREFIXES));
    if |f| == 0 { return None; }
    var i := 0;
    while i < |f|
      invariant 0 <= i <= |f| && i % 2 == 0
      invariant forall j | 0 <= j < i && j % 2 == 0 :: NatKeyword(f[j])
      invariant forall j | 0 <= j < i && j % 2 == 0 && f[j] == "-j" :: NatTarget(f[j + 1])
    {
      if !NatKeyword(f[i]) { return None; }
      if i + 1 >= |f| { return None; }
      if f[i] == "-j" {
        var target := Upper(f[i + 1]);
        if target != "MASQUERADE" && target != "SNAT" { return None; }
      }
      i := i + 2;
    }
    return Some(f);
  }

  // ---- printing and reading back ----------------------------------------------------------------

  lemma {:induction false} NothingToStrip(f: Argv, prefixes: seq<seq<string>>)
    requires AllTokens(f)
    requires forall i | 0 <= i < |prefixes| :: AllTokens(prefixes[i]) && !(prefixes[i] <= f)
    ensures StripFirst(Join(f, " "), prefixes) == Join(f, " ")
  {
    if prefixes != [] {
      if HasPrefix(Join(f, " "), Join(prefixes[0], " ") + " ") {
        PrefixWords(f, prefixes[0]);
        assert false;
      }
      NothingToStrip(f, prefixes[1..]);
    }
  }

  lemma PrintedIsRead(f: Argv, prefixes: seq<seq<string>>)
    requires AllTokens(f)
    requires forall i | 0 <= i < |prefixes| :: AllTokens(prefixes[i]) && !(prefixes[i] <= f)
    ensures Fields(StripPrefix(Join(f, " "), prefixes)) == f
  {
    JoinTrimmed(f);
    NothingToStrip(f, prefixes);
    FieldsOfJoin(f);
  }

  ghost predicate CommandsOf(prefixes: seq<seq<string>>, command: string) {
    forall i | 0 <= i < |prefixes| :: AllTokens(prefixes[i]) && prefixes[i] != [] && prefixes[i][0] == command
  }

  /** A command line is only stripped when its first word is the command. */
  lemma OtherCommandIsRead(f: Argv, prefixes: seq<seq<string>>, command: string)
    requires AllTokens(f) && f != [] && f[0] != command
    requires CommandsOf(prefixes, command)
    ensures Fields(StripPrefix(Join(f, " "), prefixes)) == f
  {
    PrintedIsRead(f, prefixes);
  }

  lemma RoutePrefixes()
    ensures forall i | 0 <= i < |ROUTE_PREFIXES| :: AllTokens(ROUTE_PREFIXES[i]) && |ROUTE_PREFIXES[i]| > 1
              && ROUTE_PREFIXES[i][1] != "via"
  {
  }

  lemma RulePrefixes()
    ensures CommandsOf(RULE_PREFIXES, "ip")
  {
    assert IsToken("ip") && IsToken("rule") && IsToken("add") && IsToken("-4");
  }

  lemma NatWords()
    ensures IsToken("iptables") && IsToken("-t") && IsToken("nat")
    ensures IsToken("-A") && IsToken("-I") && IsToken("POSTROUTING")
  {
  }

  lemma NatPrefixes()
    ensures CommandsOf(NAT_PREFIXES, "iptables")
  {
    hide IsToken;
    NatWords();
  }

  /** Printing an accepted route and parsing it again gives the same words. */
  lemma RouteRoundTrip(line: string)
    requires RouteOf(line).Some?
    ensures RouteOf(Join(RouteOf(line).value, " ")) == RouteOf(line)
  {
    var f := RouteOf(line).value;
    FieldsAreTokens(StripPrefix(line, ROUTE_PREFIXES));
    RoutePrefixes();
    PrintedIsRead(f, ROUTE_PREFIXES);
  }

  lemma RuleRoundTrip(line: string)
    requires RuleOf(line).Some?
    ensures RuleOf(Join(RuleOf(line).value, " ")) == RuleOf(line)
  {
    var f := RuleOf(line).value;
    FieldsAreTokens(StripPrefix(line, RULE_PREFIXES));
    RulePrefixes();
    OtherCommandIsRead(f, RULE_PREFIXES, "ip");
  }

  lemma NatRoundTrip(line: string)
    requires NatOf(line).Some?
    ensures NatOf(Join(NatOf(line).value, " ")) == NatOf(line)
  {
    var f := NatOf(line).value;
    FieldsAreTokens(StripPrefix(line, NAT_PREFIXES));
    assert NatKeyword(f[0]);
    NatPrefixes();
    OtherCommandIsRead(f, NAT_PREFIXES, "iptables");
  }

  lemma RouteTokens(line: string)
    ensures RouteCommand(line).Some? ==> AllTokens(RouteCommand(line).value)
  {
    FieldsAreTokens(StripPrefix(line, ROUTE_PREFIXES));
    assert IsToken("route") && IsToken("replace");
  }

  lemma RuleTokens(line: string)
    ensures RuleOf(line).Some? ==> AllTokens(RuleOf(line).value)
  {
    hide StripPrefix;
    FieldsAreTokens(StripPrefix(line, RULE_PREFIXES));
  }

  lemma NatTokens(line: string)
    ensures NatOf(line).Some? ==> AllTokens(NatOf(line).value)
  {
    hide StripPrefix, NatGrammar;
    FieldsAreTokens(StripPrefix(line, NAT_PREFIXES));
  }
}
