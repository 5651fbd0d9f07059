/** overlay/overlay.go: the command that creates a link, and the test that decides whether an
    existing link still is the one a configuration asks for. The test searches the text of
    `ip -d link show`; this module proves exactly which configurations it accepts. */
module OverlayLink {
  import opened Text
  import opened Host

  /** One overlay link the panel wants on this node. */
  datatype Config = Config(
    kind: string, name: string, vni: int, port: int, key: int, localIP: string, dev: string,
    local: string, remote: string, mtu: int, tunnelMTU: int, routes: seq<string>)

  function Kind(c: Config): string {
    if c.kind == "ipip" || c.kind == "gre" then c.kind else "vxlan"
  }

  /** A keyword and its value, when the value is set. */
  function Opt(key: string, value: string): Argv {
    if value != "" then [key, value] else []
  }

  function OptNumber(key: string, n: int): Argv {
    if n > 0 then [key, ItoaInt(n)] else []
  }

  function GreKey(c: Config): int { if Kind(c) == "gre" then c.key else 0 }

  /** addArgs: the argv that creates the link. */
  function AddArgs(c: Config): Argv {
    if Kind(c) != "vxlan" then
      ["tunnel", "add", c.name, "mode", Kind(c)] + Opt("remote", c.remote) + Opt("local", c.localIP) + Opt("dev", c.dev)
      + OptNumber("key", GreKey(c))
    else
      ["link", "add", c.name, "type", "vxlan", "id", ItoaInt(c.vni)] + Opt("local", c.localIP) + Opt("remote", c.remote)
      + Opt("dev", c.dev) + OptNumber("dstport", c.port)
  }

  predicate MatchesTunnel(show: string, c: Config) {
    var k := Kind(c);
    && Contains(show, "link/" + k)
    && (c.remote != "" ==> Contains(show, k + " remote " + c.remote))
    && (c.localIP != "" ==> Contains(show, "local " + c.localIP))
    && (c.dev != "" ==> !Contains(show, "local any") && (Contains(show, "dev ") ==> Contains(show, "dev " + c.dev)))
    && (k == "gre" && c.key > 0 ==> Contains(show, "key " + ItoaInt(c.key)))
  }

  predicate MatchesVxlan(show: string, c: Config) {
    && Contains(show, "vxlan id " + ItoaInt(c.vni) + " ")
    && (c.remote != "" ==> Contains(show, "remote " + c.remote))
    && (c.port > 0 ==> Contains(show, "dstport " + ItoaInt(c.port)))
    && (c.dev != "" ==> Contains(show, "dev " + c.dev))
    && (c.localIP != "" ==> Contains(show, "local " + c.localIP))
  }

  /** matches: does the output of `ip -d link show dev <name>` describe this configuration? */
  predicate Matches(show: string, c: Config) {
    TrimSpace(show) != "" && if Kind(c) != "vxlan" then MatchesTunnel(show, c) else MatchesVxlan(show, c)
  }

  // ---- what the kernel shows --------------------------------------------------------------------

  /** Keyword/value pairs of a creation command. */
  function Attributes(argv: Argv): Argv {
    if |argv| >= 7 && argv[0] == "link" then argv[7..] else if |argv| >= 5 then argv[5..] else []
  }

  function Shown(key: string, value: Option<string>): Argv {
    if value.Some? then [key, value.value] else []
  }

  function ValueOr(value: Option<string>, other: string): string {
    if value.Some? then value.value else other
  }

  function Concat(parts: seq<Argv>): Argv {
    if parts == [] then [] else parts[0] + Concat(parts[1..])
  }

  const SRCPORT: Argv := ["srcport", "0", "0"]
  const AGEING: Argv := ["ageing", "300"]
  const TTL: Argv := ["ttl", "inherit"]

  function Header(name: string): Argv { ["9:", name + ":", "<UP,LOWER_UP>"] }

  function VxlanHead(name: string, vni: string): Argv { Header(name) + ["vxlan", "id", vni] }

  function TunnelHead(name: string, mode: string): Argv {
    Header(name) + ["link/" + mode, "0.0.0.0", "brd", "0.0.0.0", mode]
  }

  /** The words of `ip -d link show` for a link made by argv, with the source address the kernel
      reports when none was pinned. Line breaks count as blanks. */
  function ShowSegments(argv: Argv, source: string): seq<Argv>
    requires |argv| >= 5
  {
    var a := Attributes(argv);
    if argv[0] == "link" && |argv| >= 7 then
      [VxlanHead(argv[2], argv[6]), Shown("remote", PairValue(a, "remote")), Shown("local", PairValue(a, "local")),
       Shown("dev", PairValue(a, "dev")), SRCPORT, Shown("dstport", PairValue(a, "dstport")), AGEING]
    else
      [TunnelHead(argv[2], argv[4]), ["remote", ValueOr(PairValue(a, "remote"), "any")],
       ["local", ValueOr(PairValue(a, "local"), source)], Shown("dev", PairValue(a, "dev")), TTL,
       Shown("key", PairValue(a, "key")), []]
  }

  /** The text of `ip -d link show` for an existing link. */
  function Show(argv: Argv, source: string): string {
    if |argv| < 5 then "9:" else Join(Concat(ShowSegments(argv, source)), " ")
  }

  /** An existing link is never shown blank. */
  lemma VisibleShow(argv: Argv, source: string)
    ensures TrimSpace(Show(argv, source)) != ""
  {
    hide ShowSegments;
    var s := Show(argv, source);
    assert s != "" && s[0] == '9' by { ShowStarts(argv, source); }
    assert TrimLeft(s) == s;
    TrimRightKeepsHead(s);
  }

  lemma ShowStarts(argv: Argv, source: string)
    ensures Show(argv, source) != "" && Show(argv, source)[0] == '9'
  {
    if |argv| >= 5 {
      var parts := ShowSegments(argv, source);
      assert parts[0][0] == "9:" && |parts[0]| >= 3;
      assert Concat(parts) == parts[0] + Concat(parts[1..]);
      assert Concat(parts)[0] == "9:";
    }
  }

  lemma {:induction false} TrimRightKeepsHead(s: string)
    requires s != "" && !IsSpace(s[0])
    ensures TrimRight(s) != ""
  {
    if IsSpace(s[|s| - 1]) {
      TrimRightKeepsHead(s[..|s| - 1]);
    }
  }

  lemma {:induction false} PairValueConcat(a: Argv, b: Argv, key: string)
    requires |a| % 2 == 0
    ensures PairValue(a + b, key) == if PairValue(a, key).Some? then PairValue(a, key) else PairValue(b, key)
  {
    if a == [] {
      assert a + b == b;
    } else {
      assert (a + b)[2..] == a[2..] + b;
      PairValueConcat(a[2..], b, key);
    }
  }

  lemma OptValue(k: string, v: string, key: string)
    ensures PairValue(Opt(k, v), key) == if v != "" && k == key then Some(v) else None
  {
    if v != "" {
      assert Opt(k, v)[2..] == [];
    }
  }

  lemma OptNumberValue(k: string, n: int, key: string)
    ensures PairValue(OptNumber(k, n), key) == if n > 0 && k == key then Some(ItoaInt(n)) else None
  {
    if n > 0 {
      assert OptNumber(k, n)[2..] == [];
    }
  }

  lemma FourPairs(k1: string, v1: string, k2: string, v2: string, k3: string, v3: string, k4: string, n4: int,
                  key: string)
    requires k1 != k2 && k1 != k3 && k1 != k4 && k2 != k3 && k2 != k4 && k3 != k4
    ensures PairValue(Opt(k1, v1) + Opt(k2, v2) + Opt(k3, v3) + OptNumber(k4, n4), key) ==
            if key == k1 && v1 != "" then Some(v1) else if key == k2 && v2 != "" then Some(v2)
            else if key == k3 && v3 != "" then Some(v3) else if key == k4 && n4 > 0 then Some(ItoaInt(n4)) else None
  {
    var a, b, c, d := Opt(k1, v1), Opt(k2, v2), Opt(k3, v3), OptNumber(k4, n4);
    OptValue(k1, v1, key);
    OptValue(k2, v2, key);
    OptValue(k3, v3, key);
    OptNumberValue(k4, n4, key);
    PairValueConcat(a, b, key);
    PairValueConcat(a + b, c, key);
    PairValueConcat(a + b + c, d, key);
  }

  // ---- the words shown for a link made from a configuration -------------------------------------

  function NumberOf(n: int): string { if n > 0 then ItoaInt(n) else "" }

  function LocalShown(c: Config, source: string): string { if c.localIP != "" then c.localIP else source }

  function RemoteShown(c: Config): string {
    if c.remote != "" || Kind(c) == "vxlan" then c.remote else "any"
  }

  function Segments(c: Config, source: string): seq<Argv> {
    if Kind(c) == "vxlan" then
      [VxlanHead(c.name, ItoaInt(c.vni)), Opt("remote", RemoteShown(c)), Opt("local", c.localIP), Opt("dev", c.dev),
       SRCPORT,
       Opt("dstport", NumberOf(c.port)), AGEING]
    else
      [TunnelHead(c.name, Kind(c)), Opt("remote", RemoteShown(c)), Opt("local", LocalShown(c, source)),
       Opt("dev", c.dev), TTL,
       Opt("key", NumberOf(GreKey(c))), []]
  }

  /** The keyword/value pairs a creation command carries. */
  lemma VxlanPairs(c: Config)
    requires Kind(c) == "vxlan"
    ensures var argv := AddArgs(c); |argv| >= 7 && argv[0] == "link" && argv[2] == c.name && argv[6] == ItoaInt(c.vni)
    ensures Attributes(AddArgs(c)) == Opt("local", c.localIP) + Opt("remote", c.remote) + Opt("dev",
            c.dev) + OptNumber("dstport", c.port)
  {
    hide Opt, OptNumber, ItoaInt;
    var pairs := Opt("local", c.localIP) + Opt("remote", c.remote) + Opt("dev", c.dev) + OptNumber("dstport", c.port);
    var head := ["link", "add", c.name, "type", "vxlan", "id", ItoaInt(c.vni)];
    assert AddArgs(c) == head + pairs;
  }

  lemma TunnelPairs(c: Config)
    requires Kind(c) != "vxlan"
    ensures var argv := AddArgs(c); |argv| >= 5 && argv[0] == "tunnel" && argv[2] == c.name && argv[4] == Kind(c)
    ensures Attributes(AddArgs(c)) == Opt("remote", c.remote) + Opt("local", c.localIP) + Opt("dev",
            c.dev) + OptNumber("key", GreKey(c))
  {
    hide Opt, OptNumber, ItoaInt, GreKey;
    var pairs := Opt("remote", c.remote) + Opt("local", c.localIP) + Opt("dev", c.dev) + OptNumber("key", GreKey(c));
    var head := ["tunnel", "add", c.name, "mode", Kind(c)];
    assert AddArgs(c) == head + pairs;
    assert "tunnel"[0] != "link"[0];
  }

  /** The keywords of both kinds of command are distinct. */
  lemma Keywords()
    ensures "local" != "remote" && "local" != "dev" && "local" != "dstport" && "local" != "key"
    ensures "remote" != "dev" && "remote" != "dstport" && "remote" != "key"
    ensures "dev" != "dstport" && "dev" != "key"
  {
    assert |"local"| == 5 && |"remote"| == 6 && |"dev"| == 3 && |"dstport"| == 7 && |"key"| == 3
        && "dev"[0] != "key"[0];
  }

  lemma VxlanShown(c: Config, source: string)
    requires Kind(c) == "vxlan"
    ensures Show(AddArgs(c), source) == Join(Concat(Segments(c, source)), " ")
  {
    hide PairValue, Join, Concat, AddArgs, Attributes, Kind, ItoaInt, VxlanHead, TunnelHead, GreKey, OptNumber;
    VxlanPairs(c);
    Keywords();
    FourPairs("local", c.localIP, "remote", c.remote, "dev", c.dev, "dstport", c.port, "local");
    FourPairs("local", c.localIP, "remote", c.remote, "dev", c.dev, "dstport", c.port, "remote");
    FourPairs("local", c.localIP, "remote", c.remote, "dev", c.dev, "dstport", c.port, "dev");
    FourPairs("local", c.localIP, "remote", c.remote, "dev", c.dev, "dstport", c.port, "dstport");
    assert ShowSegments(AddArgs(c), source) == Segments(c, source);
  }

  lemma TunnelShown(c: Config, source: string)
    requires Kind(c) != "vxlan" && source != ""
    ensures Show(AddArgs(c), source) == Join(Concat(Segments(c, source)), " ")
  {
    hide PairValue, Join, Concat, AddArgs, Attributes, Kind, ItoaInt, VxlanHead, TunnelHead, GreKey, OptNumber;
    TunnelPairs(c);
    Keywords();
    assert "tunnel"[0] != "link"[0];
    FourPairs("remote", c.remote, "local", c.localIP, "dev", c.dev, "key", GreKey(c), "remote");
    FourPairs("remote", c.remote, "local", c.localIP, "dev", c.dev, "key", GreKey(c), "local");
    FourPairs("remote", c.remote, "local", c.localIP, "dev", c.dev, "key", GreKey(c), "dev");
    FourPairs("remote", c.remote, "local", c.localIP, "dev", c.dev, "key", GreKey(c), "key");
    assert ShowSegments(AddArgs(c), source) == Segments(c, source);
  }

  /** Creating a link from c and showing it prints c's own parameters. */
  lemma ShowOfCreated(c: Config, source: string)
    requires source != ""
    ensures Show(AddArgs(c), source) == Join(Concat(Segments(c, source)), " ")
  {
    if Kind(c) == "vxlan" { VxlanShown(c, source); } else { TunnelShown(c, source); }
  }

  // ---- which configurations the test accepts ----------------------------------------------------

  /** No word of the list ends with w. */
  ghost predicate NoneEnds(ts: Argv, w: string) {
    forall i | 0 <= i < |ts| :: !HasSuffix(ts[i], w)
  }

  /** Somewhere a word ends with w and the next one starts with x. */
  ghost predicate HasPhrase(ts: Argv, w: string, x: string) {
    exists i | 0 <= i < |ts| - 1 :: HasSuffix(ts[i], w) && HasPrefix(ts[i + 1], x)
  }

  lemma PhraseFound(ts: Argv, i: nat, w: string, x: string)
    requires i + 1 < |ts| && HasSuffix(ts[i], w) && HasPrefix(ts[i + 1], x)
    ensures Contains(Join(ts, " "), w + " " + x)
  {
    hide Join, Contains;
    var a, b := NeighboursFound(ts, i);
    var p, q := ts[i][..|ts[i]| - |w|], ts[i + 1][|x|..];
    assert ts[i] + " " + ts[i + 1] == p + (w + " " + x) + q by {
      assert ts[i] == p + w && ts[i + 1] == x + q;
    }
    Regroup(a, p, w + " " + x, q, b);
    ContainsIntro(Join(ts, " "), a + p, w + " " + x, q + b);
  }

  lemma PhraseIff(ts: Argv, w: string, x: string)
    requires AllTokens(ts) && IsToken(w) && IsToken(x)
    ensures Contains(Join(ts, " "), w + " " + x) <==> HasPhrase(ts, w, x)
  {
    hide Join, Contains;
    var s := Join(ts, " ");
    FieldsOfJoin(ts);
    if Contains(s, w + " " + x) {
      var i := AdjacentFields(s, w, x);
    }
    if HasPhrase(ts, w, x) {
      var i :| 0 <= i < |ts| - 1 && HasSuffix(ts[i], w) && HasPrefix(ts[i + 1], x);
      PhraseFound(ts, i, w, x);
    }
  }

  /** When only the keyword itself ends with w, the phrase test compares with its value, by prefix. */
  lemma OptPhrase(a: Argv, w: string, v: string, b: Argv, x: string)
    requires NoneEnds(a, w) && NoneEnds(b, w) && !HasSuffix(v, w) && w != "" && x != ""
    ensures HasPhrase(a + Opt(w, v) + b, w, x) <==> HasPrefix(v, x)
  {
    var ts := a + Opt(w, v) + b;
    if v == "" {
      assert ts == a + b;
    } else {
      assert ts[|a|] == w && ts[|a| + 1] == v;
      assert forall i | 0 <= i < |a| :: ts[i] == a[i];
      assert forall i | |a| + 2 <= i < |ts| :: ts[i] == b[i - |a| - 2];
    }
  }

  predicate Keyword(w: string) { w in {"remote", "local", "dev", "dstport", "key"} }

  /** An address or device name: one word, without a slash, that neither is "id" nor ends with a keyword. */
  ghost predicate Clean(v: string) {
    IsToken(v) && '/' !in v && v != "id" && forall k | Keyword(k) :: !HasSuffix(v, k)
  }

  ghost predicate UnsetOr(v: string, ok: bool) { v == "" || ok }

  ghost predicate CleanConfig(c: Config) {
    IsToken(c.name) && '/' !in c.name
    && UnsetOr(c.remote, Clean(c.remote)) && UnsetOr(c.localIP, Clean(c.localIP)) && UnsetOr(c.dev, Clean(c.dev))
  }

  ghost predicate WordConfig(c: Config) {
    UnsetOr(c.remote, IsToken(c.remote)) && UnsetOr(c.localIP, IsToken(c.localIP)) && UnsetOr(c.dev, IsToken(c.dev))
  }

  lemma FixedWords(w: string)
    requires Keyword(w)
    ensures NoneEnds(SRCPORT, w) && NoneEnds(AGEING, w) && NoneEnds(TTL, w)
    ensures !HasSuffix("9:", w) && !HasSuffix("<UP,LOWER_UP>", w) && !HasSuffix("vxlan", w) && !HasSuffix("id", w)
  {
  }

  lemma TunnelWordsEnd(w: string)
    requires Keyword(w)
    ensures !HasSuffix("link/ipip", w) && !HasSuffix("link/gre", w) && !HasSuffix("0.0.0.0", w) && !HasSuffix("brd", w)
    ensures !HasSuffix("ipip", w) && !HasSuffix("gre", w) && !HasSuffix("any", w)
  {
  }

  lemma KeywordsDiffer(w: string, k: string)
    requires Keyword(w) && Keyword(k) && w != k
    ensures !HasSuffix(k, w)
  {
  }

  lemma DigitsEndNoKeyword(n: int, w: string)
    requires Keyword(w)
    ensures !HasSuffix(ItoaInt(n), w)
  {
    var s := ItoaInt(n);
    assert '0' <= s[|s| - 1] <= '9';
    assert !('0' <= w[|w| - 1] <= '9');
  }

  lemma HeaderEnds(name: string, w: string)
    requires Keyword(w)
    ensures NoneEnds(Header(name), w)
  {
    hide HasSuffix;
    FixedWords(w);
    ColonEnds(name, w);
  }

  lemma ColonEnds(name: string, w: string)
    requires Keyword(w)
    ensures !HasSuffix(name + ":", w)
  {
    assert w[|w| - 1] != ':';
    assert (name + ":")[|name|] == ':';
  }

  /** What is shown after a keyword ("" when the keyword is not shown). */
  function ValueShown(m: Config, source: string, w: string): string {
    if w == "remote" then RemoteShown(m)
    else if w == "local" then (if Kind(m) == "vxlan" then m.localIP else LocalShown(m, source))
    else if w == "dev" then m.dev
    else if w == "dstport" && Kind(m) == "vxlan" then NumberOf(m.port)
    else if w == "key" && Kind(m) != "vxlan" then NumberOf(GreKey(m))
    else ""
  }

  /** Which segment shows a keyword. */
  function SegmentOf(w: string): nat
    requires Keyword(w)
  {
    if w == "remote" then 1 else if w == "local" then 2 else if w == "dev" then 3 else 5
  }

  predicate ShowsKeyword(m: Config, w: string) {
    Keyword(w) && (Kind(m) == "vxlan" ==> w != "key") && (Kind(m) != "vxlan" ==> w != "dstport")
  }

  lemma EmptyEnds(w: string)
    requires Keyword(w)
    ensures !HasSuffix("", w)
  {
  }

  lemma NoneEndsConcat(a: Argv, b: Argv, w: string)
    requires NoneEnds(a, w) && NoneEnds(b, w)
    ensures NoneEnds(a + b, w)
  {
  }

  lemma ValuesEndNoKeyword(m: Config, source: string, w: string, k: string)
    requires CleanConfig(m) && Clean(source) && Keyword(w) && Keyword(k)
    ensures !HasSuffix(ValueShown(m, source, k), w)
  {
    hide HasSuffix, ItoaInt;
    TunnelWordsEnd(w);
    EmptyEnds(w);
    if k == "dstport" { DigitsEndNoKeyword(m.port, w); }
    if k == "key" { DigitsEndNoKeyword(GreKey(m), w); }
  }

  lemma SegmentIs(m: Config, source: string, w: string)
    requires ShowsKeyword(m, w)
    ensures Segments(m, source)[SegmentOf(w)] == Opt(w, ValueShown(m, source, w))
  {
  }

  lemma OptEnds(w: string, k: string, v: string)
    requires Keyword(w) && Keyword(k) && w != k && !HasSuffix(v, w)
    ensures NoneEnds(Opt(k, v), w)
  {
    hide HasSuffix;
    KeywordsDiffer(w, k);
  }

  lemma FixedSegments(m: Config, source: string, w: string)
    requires Keyword(w)
    ensures NoneEnds(Segments(m, source)[0], w) && NoneEnds(Segments(m, source)[4], w)
            && NoneEnds(Segments(m, source)[6], w)
  {
    hide HasSuffix, ItoaInt, Header;
    HeaderEnds(m.name, w);
    FixedWords(w);
    if Kind(m) == "vxlan" {
      DigitsEndNoKeyword(m.vni, w);
      NoneEndsConcat(Header(m.name), ["vxlan", "id", ItoaInt(m.vni)], w);
    } else {
      TunnelWordsEnd(w);
      assert "link/" + "ipip" == "link/ipip" && "link/" + "gre" == "link/gre";
      NoneEndsConcat(Header(m.name), ["link/" + Kind(m), "0.0.0.0", "brd", "0.0.0.0", Kind(m)], w);
      assert NoneEnds([], w);
    }
  }

  /** Only the segment that shows w has a word ending with w. */
  lemma OthersEndNoKeyword(m: Config, source: string, w: string, i: nat)
    requires CleanConfig(m) && Clean(source) && ShowsKeyword(m, w) && i < 7 && i != SegmentOf(w)
    ensures NoneEnds(Segments(m, source)[i], w)
  {
    hide Segments, HasSuffix, ValueShown, NoneEnds, Clean;
    FixedSegments(m, source, w);
    if i != 0 && i != 4 && i != 6 {
      var k := if i == 1 then "remote" else if i == 2 then "local" else if i == 3 then "dev"
               else if Kind(m) == "vxlan" then "dstport" else "key";
      SegmentIs(m, source, k);
      ValuesEndNoKeyword(m, source, w, k);
      OptEnds(w, k, ValueShown(m, source, k));
    }
  }

  lemma {:induction false} ConcatSplit(parts: seq<Argv>, j: nat)
    requires j < |parts|
    ensures Concat(parts) == Concat(parts[..j]) + parts[j] + Concat(parts[j + 1..])
  {
    if j > 0 {
      ConcatSplit(parts[1..], j - 1);
      assert parts[1..][..j - 1] == parts[..j][1..];
      assert parts[1..][j..] == parts[j + 1..];
    }
  }

  lemma {:induction false} NoneEndsOf(parts: seq<Argv>, w: string)
    requires forall i | 0 <= i < |parts| :: NoneEnds(parts[i], w)
    ensures NoneEnds(Concat(parts), w)
  {
    if parts != [] {
      NoneEndsOf(parts[1..], w);
    }
  }

  /** In the words of a link, the phrase test compares with the value shown, by prefix. */
  lemma PhraseCompares(m: Config, source: string, w: string, x: string)
    requires CleanConfig(m) && Clean(source) && ShowsKeyword(m, w) && x != ""
    ensures HasPhrase(Concat(Segments(m, source)), w, x) <==> HasPrefix(ValueShown(m, source, w), x)
  {
    hide Segments, ValueShown, NoneEnds, HasPhrase, Clean, Concat, HasSuffix, HasPrefix;
    var parts, j, v := Segments(m, source), SegmentOf(w), ValueShown(m, source, w);
    SevenSegments(m, source);
    SegmentIs(m, source, w);
    forall i | 0 <= i < 7 && i != j ensures NoneEnds(parts[i], w) { OthersEndNoKeyword(m, source, w, i); }
    ConcatSplit(parts, j);
    NoneEndsOf(parts[..j], w);
    NoneEndsOf(parts[j + 1..], w);
    ValuesEndNoKeyword(m, source, w, w);
    OptPhrase(Concat(parts[..j]), w, v, Concat(parts[j + 1..]), x);
  }

  lemma SevenSegments(m: Config, source: string)
    ensures |Segments(m, source)| == 7
  {
  }

  // ---- every word of the text -------------------------------------------------------------------

  /** The words of a list, and what is said of each of them. */
  ghost predicate EachWord(ts: Argv, ok: string -> bool) {
    forall i | 0 <= i < |ts| :: ok(ts[i])
  }

  lemma {:induction false} EachWordOf(parts: seq<Argv>, ok: string -> bool)
    requires forall i | 0 <= i < |parts| :: EachWord(parts[i], ok)
    ensures EachWord(Concat(parts), ok)
  {
    if parts != [] {
      EachWordOf(parts[1..], ok);
    }
  }

  /** A word that is neither a slashed word nor "id". */
  predicate Ordinary(v: string) { IsToken(v) && '/' !in v && v != "id" }

  lemma NumbersAreOrdinary(n: int)
    ensures Ordinary(ItoaInt(n))
  {
    ItoaIntIsToken(n);
    var s := ItoaInt(n);
    assert '0' <= s[|s| - 1] <= '9';
    if n >= 0 { assert forall i | 0 <= i < |s| :: s[i] != '/'; }
    else { assert forall i | 0 <= i < |s| :: s[i] != '/' by { assert s == "-" + Itoa(-n); } }
  }

  lemma SrcportIsOrdinary()
    ensures EachWord(SRCPORT, Ordinary)
  {
  }

  lemma AgeingIsOrdinary()
    ensures EachWord(AGEING, Ordinary)
  {
  }

  lemma TtlIsOrdinary()
    ensures EachWord(TTL, Ordinary)
  {
  }

  lemma KeywordsAreOrdinary()
    ensures Ordinary("remote") && Ordinary("local") && Ordinary("dev")
  {
  }

  lemma MoreOrdinaryWords()
    ensures Ordinary("dstport") && Ordinary("key") && Ordinary("any")
  {
  }

  lemma KindsAreOrdinary()
    ensures Ordinary("vxlan") && Ordinary("ipip") && Ordinary("gre")
  {
  }

  lemma HeaderIsOrdinary(name: string)
    requires IsToken(name) && '/' !in name
    ensures EachWord(Header(name), Ordinary)
  {
    var v := name + ":";
    assert v[|name|] == ':';
    assert forall i | 0 <= i < |v| :: !IsSpace(v[i]) && v[i] != '/';
    assert Ordinary(v);
  }

  lemma OptIsOrdinary(k: string, v: string)
    requires Ordinary(k) && UnsetOr(v, Ordinary(v))
    ensures EachWord(Opt(k, v), Ordinary)
  {
  }

  /** After the head, a link shows only ordinary words. */
  lemma TailIsOrdinary(m: Config, source: string)
    requires CleanConfig(m) && Clean(source)
    ensures EachWord(Concat(Segments(m, source)[1..]), Ordinary)
  {
    hide Clean, Ordinary, Concat, ItoaInt;
    CleanIsOrdinary(m, source);
    SrcportIsOrdinary();
    AgeingIsOrdinary();
    TtlIsOrdinary();
    KeywordsAreOrdinary();
    MoreOrdinaryWords();
    NumbersAreOrdinary(m.port);
    NumbersAreOrdinary(GreKey(m));
    OptIsOrdinary("remote", RemoteShown(m));
    OptIsOrdinary("local", m.localIP);
    OptIsOrdinary("local", LocalShown(m, source));
    OptIsOrdinary("dev", m.dev);
    OptIsOrdinary("dstport", NumberOf(m.port));
    OptIsOrdinary("key", NumberOf(GreKey(m)));
    EachWordOf(Segments(m, source)[1..], Ordinary);
  }

  lemma CleanIsOrdinary(m: Config, source: string)
    requires CleanConfig(m) && Clean(source)
    ensures Ordinary(source) && UnsetOr(m.remote, Ordinary(m.remote)) && UnsetOr(m.localIP, Ordinary(m.localIP))
            && UnsetOr(m.dev, Ordinary(m.dev))
  {
  }

  lemma HeadThenTail(m: Config, source: string)
    ensures Concat(Segments(m, source)) == Segments(m, source)[0] + Concat(Segments(m, source)[1..])
  {
  }

  lemma HeadTokens(m: Config)
    requires CleanConfig(m)
    ensures AllTokens(Segments(m, "")[0])
  {
    hide Ordinary, ItoaInt, IsToken, Header;
    HeaderIsOrdinary(m.name);
    OrdinaryTokens(Header(m.name));
    KindsAreOrdinary();
    OrdinaryTokens(["vxlan", "ipip", "gre"]);
    assert ["vxlan", "ipip", "gre"][0] == "vxlan" && ["vxlan", "ipip", "gre"][1] == "ipip"
        && ["vxlan", "ipip", "gre"][2] == "gre";
    ItoaIntIsToken(m.vni);
    SlashWords();
    HeadWords();
  }

  lemma SlashWords()
    ensures "link/" + "ipip" == "link/ipip" && "link/" + "gre" == "link/gre"
    ensures IsToken("link/ipip") && IsToken("link/gre")
  {
  }

  lemma HeadWords()
    ensures IsToken("0.0.0.0") && IsToken("brd") && IsToken("id")
  {
  }

  lemma OrdinaryTokens(ts: Argv)
    requires EachWord(ts, Ordinary)
    ensures AllTokens(ts)
  {
  }

  function AllWords(m: Config, source: string): Argv { Concat(Segments(m, source)) }

  lemma WordsAreTokens(m: Config, source: string)
    requires CleanConfig(m) && Clean(source)
    ensures AllTokens(AllWords(m, source))
  {
    hide Segments, Concat, Clean, Ordinary;
    SevenSegments(m, source);
    HeadTokens(m);
    SameHead(m, source);
    TailIsOrdinary(m, source);
    OrdinaryTokens(Concat(Segments(m, source)[1..]));
    HeadThenTail(m, source);
  }

  lemma SameHead(m: Config, source: string)
    ensures Segments(m, source)[0] == Segments(m, "")[0]
  {
  }

  /** The text of the link, and the comparison behind each phrase the test looks for. */
  lemma PhraseTest(m: Config, source: string, w: string, x: string)
    requires CleanConfig(m) && Clean(source) && ShowsKeyword(m, w) && IsToken(x)
    ensures Contains(Join(AllWords(m, source), " "), w + " " + x) <==> HasPrefix(ValueShown(m, source, w), x)
  {
    hide Clean, Segments, Concat, HasPhrase, HasPrefix, Contains, Join, ValueShown;
    WordsAreTokens(m, source);
    KeywordsAreOrdinary();
    MoreOrdinaryWords();
    PhraseIff(AllWords(m, source), w, x);
    PhraseCompares(m, source, w, x);
  }

  // ---- the two tests that are not phrases -------------------------------------------------------

  /** The word "id" after a word ending in vxlan appears only in the head of a VXLAN link. */
  lemma IdPlace(m: Config, source: string, i: nat)
    requires CleanConfig(m) && Clean(source)
    requires i + 2 < |AllWords(m, source)| && AllWords(m, source)[i + 1] == "id"
    ensures Kind(m) == "vxlan" && AllWords(m, source)[i + 2] == ItoaInt(m.vni)
  {
    hide Clean, Concat, ItoaInt;
    var head, tail := Segments(m, source)[0], Concat(Segments(m, source)[1..]);
    HeadThenTail(m, source);
    assert forall j | |head| <= j < |AllWords(m, source)| :: AllWords(m, source)[j] == tail[j - |head|];
    TailIsOrdinary(m, source);
    SameHead(m, source);
    if i + 1 < |head| { HeadNotId(m, i + 1); }
  }

  lemma HeadNotId(m: Config, j: nat)
    requires CleanConfig(m) && j < |Segments(m, "")[0]|
    ensures Segments(m, "")[0][j] == "id" ==> Kind(m) == "vxlan" && j == 4
  {
    var h := Segments(m, "")[0];
    assert (m.name + ":")[|m.name|] == ':' && "id"[1] == 'd';
    assert "9:"[0] == '9' && |"<UP,LOWER_UP>"| == 13 && |"vxlan"| == 5;
    NumbersAreOrdinary(m.vni);
    assert |"link/" + Kind(m)| >= 5 && |Kind(m)| >= 3;
    assert Kind(m) != "vxlan" ==>
        |h| == 8 && h[3] == "link/" + Kind(m) && h[4] == "0.0.0.0" && h[5] == "brd" && h[6] == "0.0.0.0"
            && h[7] == Kind(m);
    assert Kind(m) == "vxlan" ==> |h| == 6 && h[3] == "vxlan" && h[5] == ItoaInt(m.vni);
  }

  /** The VNI is compared exactly: the pattern ends with a blank. */
  lemma VniTest(m: Config, source: string, n: int)
    requires CleanConfig(m) && Clean(source)
    ensures Contains(Join(AllWords(m, source), " "), "vxlan id " + ItoaInt(n) + " ") <==>
              Kind(m) == "vxlan"
              && m.vni == n
  {
    hide Clean, Segments, Concat, Contains, Join, ItoaInt, AllWords;
    var ts := AllWords(m, source);
    var pattern := "vxlan id " + ItoaInt(n) + " ";
    assert pattern == "vxlan" + " " + "id" + " " + ItoaInt(n) + " ";
    WordsAreTokens(m, source);
    FieldsOfJoin(ts);
    KindsAreOrdinary();
    HeadWords();
    ItoaIntIsToken(n);
    if Contains(Join(ts, " "), pattern) {
      var i := ExactFields(Join(ts, " "), "vxlan", "id", ItoaInt(n));
      IdPlace(m, source, i);
      ItoaIntInjective(m.vni, n);
    }
    if Kind(m) == "vxlan" && m.vni == n {
      VniFound(m, source);
    }
  }

  lemma VniFound(m: Config, source: string)
    requires Kind(m) == "vxlan"
    ensures Contains(Join(AllWords(m, source), " "), "vxlan id " + ItoaInt(m.vni) + " ")
  {
    hide Contains, ItoaInt;
    var ts := AllWords(m, source);
    var mid := ["vxlan", "id", ItoaInt(m.vni)];
    var head, tail := Header(m.name), Concat(Segments(m, source)[1..]);
    HeadThenTail(m, source);
    TailNotEmpty(m, source);
    assert ts == head + (mid + tail);
    JoinConcat(head, mid + tail, " ");
    JoinConcat(mid, tail, " ");
    assert mid[1..][1..] == [ItoaInt(m.vni)];
    assert Join(mid, " ") == "vxlan" + " " + Join(mid[1..], " ");
    assert Join(mid[1..], " ") == "id" + " " + ItoaInt(m.vni);
    var pattern := "vxlan id " + ItoaInt(m.vni) + " ";
    assert Join(ts, " ") == (Join(head, " ") + " ") + pattern + Join(tail, " ");
    ContainsIntro(Join(ts, " "), Join(head, " ") + " ", pattern, Join(tail, " "));
  }

  lemma TailNotEmpty(m: Config, source: string)
    ensures Concat(Segments(m, source)[1..]) != []
  {
    var tail := Segments(m, source)[1..];
    SevenSegments(m, source);
    assert tail[3] == if Kind(m) == "vxlan" then SRCPORT else TTL;
    ConcatSplit(tail, 3);
    assert |Concat(tail)| >= |tail[3]|;
  }

  /** No VXLAN link and no ordinary word shows a link type; a tunnel shows its own. */
  lemma LinkTypeTest(m: Config, source: string, k: string)
    requires CleanConfig(m) && Clean(source) && (k == "ipip" || k == "gre")
    ensures Contains(Join(AllWords(m, source), " "), "link/" + k) <==> Kind(m) == k
  {
    hide Clean, Segments, Concat, Join, AllWords, Ordinary;
    var ts, word := AllWords(m, source), "link/" + k;
    SlashWords();
    WordsAreTokens(m, source);
    FieldsOfJoin(ts);
    if Contains(Join(ts, " "), word) {
      var a, b := ContainsSplits(Join(ts, " "), word);
      WordInField(a, word, b);
      var i :| 0 <= i < |ts| && Contains(ts[i], word);
      SlashPlace(m, source, i, word);
    }
    if Kind(m) == k {
      var i := LinkTypePlace(m, source);
      WordFound(ts, i, word);
    }
  }

  lemma LinkTypePlace(m: Config, source: string) returns (i: nat)
    requires Kind(m) != "vxlan"
    ensures i < |AllWords(m, source)| && AllWords(m, source)[i] == "link/" + Kind(m)
  {
    hide Concat;
    HeadThenTail(m, source);
    assert Segments(m, source)[0] == Header(m.name) + ["link/" + Kind(m), "0.0.0.0", "brd", "0.0.0.0", Kind(m)];
    i := 3;
  }

  lemma {:induction false} WordFound(ts: Argv, i: nat, w: string)
    requires i < |ts| && ts[i] == w
    ensures Contains(Join(ts, " "), w)
  {
    hide Contains;
    if |ts| == 1 {
      ContainsIntro(w, "", w, "");
    } else if i == 0 {
      var rest := " " + Join(ts[1..], " ");
      assert Join(ts, " ") == "" + w + rest;
      ContainsIntro(Join(ts, " "), "", w, rest);
    } else {
      WordFound(ts[1..], i - 1, w);
      var a, b := ContainsSplits(Join(ts[1..], " "), w);
      var front := ts[0] + " ";
      assert Join(ts, " ") == front + Join(ts[1..], " ");
      assert Join(ts, " ") == (front + a) + w + b;
      ContainsIntro(Join(ts, " "), front + a, w, b);
    }
  }

  /** A shown word that contains a link type is the link type of the tunnel. */
  lemma SlashPlace(m: Config, source: string, i: nat, word: string)
    requires CleanConfig(m) && Clean(source) && (word == "link/ipip" || word == "link/gre")
    requires i < |AllWords(m, source)| && Contains(AllWords(m, source)[i], word)
    ensures Kind(m) != "vxlan" && word == "link/" + Kind(m)
  {
    hide Clean, Concat, Contains;
    var head, tail := Segments(m, source)[0], Concat(Segments(m, source)[1..]);
    HeadThenTail(m, source);
    assert forall j | |head| <= j < |AllWords(m, source)| :: AllWords(m, source)[j] == tail[j - |head|];
    TailIsOrdinary(m, source);
    var v := AllWords(m, source)[i];
    SlashInside(v, word);
    SameHead(m, source);
    if i < |head| { HeadSlash(m, i, word); }
  }

  lemma SlashInside(v: string, word: string)
    requires Contains(v, word) && '/' in word
    ensures '/' in v
  {
    var a, b := ContainsSplits(v, word);
  }

  lemma HeadSlash(m: Config, j: nat, word: string)
    requires CleanConfig(m) && j < |Segments(m, "")[0]| && (word == "link/ipip" || word == "link/gre")
    ensures Contains(Segments(m, "")[0][j], word) ==> Kind(m) != "vxlan" && word == "link/" + Kind(m)
  {
    hide Contains, ItoaInt, IsToken;
    var v := Segments(m, "")[0][j];
    if Contains(v, word) {
      SlashInside(v, word);
      SlashedWord(m, j);
      LinkTypesDiffer();
      SlashWords();
    }
  }

  lemma SlashedWord(m: Config, j: nat)
    requires CleanConfig(m) && j < |Segments(m, "")[0]|
    ensures '/' in Segments(m, "")[0][j] ==> Kind(m) != "vxlan" && Segments(m, "")[0][j] == "link/" + Kind(m)
  {
    hide IsToken, ItoaInt;
    NumbersAreOrdinary(m.vni);
    HeaderIsOrdinary(m.name);
    KindsAreOrdinary();
    var h := Segments(m, "")[0];
    if Kind(m) == "vxlan" {
      assert h == Header(m.name) + ["vxlan", "id", ItoaInt(m.vni)];
    } else {
      assert h == Header(m.name) + ["link/" + Kind(m), "0.0.0.0", "brd", "0.0.0.0", Kind(m)];
    }
  }

  lemma LinkTypesDiffer()
    ensures !Contains("link/ipip", "link/gre") && !Contains("link/gre", "link/ipip")
  {
    forall i | 0 <= i <= 1 ensures "link/ipip"[i..][..8] != "link/gre" {
      assert "link/ipip"[i..][..8][5] == "link/ipip"[i + 5] && "link/gre"[5] == 'g';
    }
  }

  /** The tunnel's own phrase, kind word included, decides the remote like the shorter phrase. */
  lemma TunnelRemoteTest(m: Config, source: string, x: string)
    requires CleanConfig(m) && Clean(source) && Kind(m) != "vxlan" && IsToken(x)
    ensures Contains(Join(AllWords(m, source), " "), Kind(m) + " remote " + x) <==> HasPrefix(RemoteShown(m), x)
  {
    hide Clean, Contains, Join, HasPrefix, AllWords, Segments;
    var text := Join(AllWords(m, source), " ");
    PhraseTest(m, source, "remote", x);
    if Contains(text, Kind(m) + " remote " + x) {
      var a, b := ContainsSplits(text, Kind(m) + " remote " + x);
      assert text == (a + Kind(m) + " ") + ("remote" + " " + x) + b;
      ContainsIntro(text, a + Kind(m) + " ", "remote" + " " + x, b);
    }
    if HasPrefix(RemoteShown(m), x) {
      TunnelRemoteFound(m, source, x);
    }
  }

  /** What comes before the kind word of a tunnel, and after its remote address. */
  function BeforeKind(m: Config): Argv { Header(m.name) + ["link/" + Kind(m), "0.0.0.0", "brd", "0.0.0.0"] }

  function AfterRemote(m: Config, source: string): Argv { Concat(Segments(m, source)[2..]) }

  lemma TunnelWords(m: Config, source: string)
    requires Kind(m) != "vxlan" && RemoteShown(m) != ""
    ensures AllWords(m, source)
            == BeforeKind(m) + ([Kind(m)] + (["remote"] + ([RemoteShown(m)] + AfterRemote(m, source))))
  {
    hide Header;
    var parts := Segments(m, source);
    assert parts[2..] == parts[1..][1..];
    assert Concat(parts) == parts[0] + Concat(parts[1..]);
    assert Concat(parts[1..]) == parts[1] + AfterRemote(m, source);
    assert parts[0] == BeforeKind(m) + [Kind(m)] && parts[1] == ["remote"] + [RemoteShown(m)];
  }

  lemma TunnelRemoteFound(m: Config, source: string, x: string)
    requires Kind(m) != "vxlan" && HasPrefix(RemoteShown(m), x) && x != ""
    ensures Contains(Join(AllWords(m, source), " "), Kind(m) + " remote " + x)
  {
    hide Contains, Join, BeforeKind, AfterRemote, AllWords, Kind;
    var head, tail := BeforeKind(m), AfterRemote(m, source);
    TunnelWords(m, source);
    HeadNotEmpty(m);
    JoinConcat(head, [Kind(m)] + (["remote"] + ([RemoteShown(m)] + tail)), " ");
    JoinFirst(Kind(m), ["remote"] + ([RemoteShown(m)] + tail));
    JoinFirst("remote", [RemoteShown(m)] + tail);
    var rest := JoinStarts(RemoteShown(m), tail);
    var q := RemoteShown(m)[|x|..] + rest;
    assert RemoteShown(m) + rest == x + q;
    RemotePhrase(Join(head, " "), Kind(m), RemoteShown(m), rest, x, q);
    ContainsIntro(Join(AllWords(m, source), " "), Join(head, " ") + " ", Kind(m) + " remote " + x, q);
  }

  lemma HeadNotEmpty(m: Config)
    ensures BeforeKind(m) != []
  {
  }

  lemma RemotePhrase(head: string, kind: string, remote: string, rest: string, x: string, q: string)
    requires remote + rest == x + q
    ensures head + " " + (kind + " " + ("remote" + " " + (remote + rest))) == (head + " ") + (kind + " remote " + x) + q
  {
    assert "remote" + " " + (x + q) == "remote " + x + q;
    assert kind + " " + ("remote " + x + q) == kind + " remote " + x + q;
  }

  lemma JoinFirst(t: string, ts: Argv)
    requires ts != []
    ensures Join([t] + ts, " ") == t + " " + Join(ts, " ")
  {
    assert ([t] + ts)[1..] == ts;
  }

  lemma JoinStarts(t: string, ts: Argv) returns (rest: string)
    ensures Join([t] + ts, " ") == t + rest
  {
    if ts == [] {
      assert [t] + ts == [t];
      rest := "";
    } else {
      JoinFirst(t, ts);
      rest := " " + Join(ts, " ");
    }
  }

  /** "dev " occurs exactly when the link has an underlay device. */
  lemma DevTest(m: Config, source: string)
    requires CleanConfig(m) && Clean(source)
    ensures Contains(Join(AllWords(m, source), " "), "dev ") <==> m.dev != ""
  {
    hide Clean, Contains, Join, AllWords, Segments, HasSuffix;
    var text := Join(AllWords(m, source), " ");
    WordsAreTokens(m, source);
    FieldsOfJoin(AllWords(m, source));
    KeywordsAreOrdinary();
    if Contains(text, "dev ") {
      var a, b := ContainsSplits(text, "dev ");
      assert text == (a + "dev") + [' '] + b;
      FieldsSplit(a + "dev", ' ', b);
      LastFieldHasSuffix(a, "dev");
      var i := |Fields(a + "dev")| - 1;
      assert HasSuffix(AllWords(m, source)[i], "dev");
      DevEnds(m, source, i);
    }
    if m.dev != "" {
      assert IsToken(m.dev) by { CleanIsOrdinary(m, source); }
      PhraseTest(m, source, "dev", m.dev);
      assert HasPrefix(m.dev, m.dev);
      var a, b := ContainsSplits(text, "dev" + " " + m.dev);
      assert text == a + "dev " + (m.dev + b);
      ContainsIntro(text, a, "dev ", m.dev + b);
    }
  }

  lemma DevEnds(m: Config, source: string, i: nat)
    requires CleanConfig(m) && Clean(source)
    requires i < |AllWords(m, source)| && HasSuffix(AllWords(m, source)[i], "dev")
    ensures m.dev != ""
  {
    hide Clean, Segments, HasSuffix, Concat;
    var w, parts := "dev", Segments(m, source);
    SevenSegments(m, source);
    SegmentIs(m, source, w);
    if m.dev == "" {
      forall j | 0 <= j < 7 ensures NoneEnds(parts[j], w) {
        if j != 3 { OthersEndNoKeyword(m, source, w, j); }
      }
      NoneEndsOf(parts, w);
      assert false;
    }
  }

  // ---- the exact characterisation ---------------------------------------------------------------

  /** A wanted value fits a shown one when it is unset or a prefix of it. */
  predicate Fits(want: string, shown: string) { want == "" || HasPrefix(shown, want) }

  /** What the test really compares between the configuration that made the link and a new one. */
  predicate Accepts(made: Config, source: string, c: Config) {
    && Kind(c) == Kind(made)
    && Fits(c.remote, RemoteShown(made))
    && if Kind(c) == "vxlan" then
         && c.vni == made.vni
         && Fits(c.localIP, made.localIP) && Fits(c.dev, made.dev)
         && Fits(NumberOf(c.port), NumberOf(made.port))
       else
         && Fits(c.localIP, LocalShown(made, source))
         && (c.dev != "" ==>
             !HasPrefix(LocalShown(made, source), "any")
             && (made.dev != "" ==> HasPrefix(made.dev, c.dev)))
         && Fits(NumberOf(GreKey(c)), NumberOf(GreKey(made)))
  }

  lemma FitsTest(m: Config, source: string, w: string, x: string)
    requires CleanConfig(m) && Clean(source) && ShowsKeyword(m, w) && UnsetOr(x, IsToken(x))
    ensures (x != "" ==> Contains(Join(AllWords(m, source), " "), w + " " + x)) <==> Fits(x, ValueShown(m, source, w))
  {
    hide Clean, Contains, Join, AllWords, ValueShown, HasPrefix;
    if x != "" { PhraseTest(m, source, w, x); }
  }

  lemma NotBlank(m: Config, source: string)
    requires CleanConfig(m) && Clean(source)
    ensures TrimSpace(Join(AllWords(m, source), " ")) != ""
  {
    hide Clean, Segments, Concat, TrimSpace;
    WordsAreTokens(m, source);
    HeadThenTail(m, source);
    SameHead(m, source);
    SevenSegments(m, "");
    assert |Segments(m, "")[0]| > 0 by { HeadLength(m); }
    JoinTrimmed(AllWords(m, source));
    JoinLast(AllWords(m, source));
  }

  lemma HeadLength(m: Config)
    ensures |Segments(m, "")[0]| >= 6
  {
  }

  lemma VxlanMatchesIff(made: Config, source: string, c: Config)
    requires CleanConfig(made) && Clean(source) && WordConfig(c) && Kind(c) == "vxlan" && Kind(made) == "vxlan"
    ensures MatchesVxlan(Join(AllWords(made, source), " "), c) <==> Accepts(made, source, c)
  {
    hide Clean, Contains, Join, AllWords, HasPrefix, ItoaInt, IsToken;
    VniTest(made, source, c.vni);
    ItoaIntIsToken(c.port);
    FitsTest(made, source, "remote", c.remote);
    FitsTest(made, source, "local", c.localIP);
    FitsTest(made, source, "dev", c.dev);
    FitsTest(made, source, "dstport", NumberOf(c.port));
    WordsOfPatterns(c);
  }

  lemma WordsOfPatterns(c: Config)
    ensures "remote" + " " + c.remote == "remote " + c.remote && "local" + " " + c.localIP == "local " + c.localIP
    ensures "dev" + " " + c.dev == "dev " + c.dev && "local" + " " + "any" == "local any"
    ensures "dstport" + " " + ItoaInt(c.port) == "dstport " + ItoaInt(c.port)
            && "key" + " " + ItoaInt(c.key) == "key " + ItoaInt(c.key)
  {
  }

  lemma TunnelMatchesIff(made: Config, source: string, c: Config)
    requires CleanConfig(made) && Clean(source) && WordConfig(c) && Kind(c) != "vxlan" && Kind(made) == Kind(c)
    ensures MatchesTunnel(Join(AllWords(made, source), " "), c) <==> Accepts(made, source, c)
  {
    hide Clean, Contains, Join, AllWords, HasPrefix, ItoaInt, IsToken;
    LinkTypeTest(made, source, Kind(c));
    if c.remote != "" { TunnelRemoteTest(made, source, c.remote); }
    FitsTest(made, source, "local", c.localIP);
    MoreOrdinaryWords();
    PhraseTest(made, source, "local", "any");
    DevTest(made, source);
    FitsTest(made, source, "dev", c.dev);
    ItoaIntIsToken(c.key);
    FitsTest(made, source, "key", NumberOf(GreKey(c)));
    WordsOfPatterns(c);
  }

  /** The whole test, decided: a link made from one configuration is accepted for another exactly when
      the kind and the VNI agree and every address, device, port and key the new configuration sets is
      a prefix of the installed one (with the rules for an unpinned source and a missing device). */
  lemma MatchesIff(made: Config, source: string, c: Config)
    requires CleanConfig(made) && Clean(source) && WordConfig(c)
    ensures Matches(Show(AddArgs(made), source), c) <==> Accepts(made, source, c)
  {
    hide Clean, Contains, Join, Concat, Segments, HasPrefix, ItoaInt, Show, AddArgs, Fits, TrimSpace;
    CleanIsOrdinary(made, source);
    ShowOfCreated(made, source);
    NotBlank(made, source);
    if Kind(c) != Kind(made) {
      if Kind(c) == "vxlan" {
        VniTest(made, source, c.vni);
      } else {
        LinkTypeTest(made, source, Kind(c));
      }
    } else if Kind(c) == "vxlan" {
      VxlanMatchesIff(made, source, c);
    } else {
      TunnelMatchesIff(made, source, c);
    }
  }

  // ---- the configuration that made the link -----------------------------------------------------

  /** Each pair a link shows is found in its text. */
  lemma ShownFound(m: Config, source: string, w: string)
    requires ShowsKeyword(m, w) && ValueShown(m, source, w) != ""
    ensures Contains(Join(AllWords(m, source), " "), w + " " + ValueShown(m, source, w))
  {
    hide Segments, ValueShown, Concat, Contains, Join;
    var parts, j := Segments(m, source), SegmentOf(w);
    SevenSegments(m, source);
    SegmentIs(m, source, w);
    ConcatSplit(parts, j);
    var ts, i := AllWords(m, source), |Concat(parts[..j])|;
    assert ts[i] == parts[j][0] == w && ts[i + 1] == parts[j][1] == ValueShown(m, source, w);
    assert HasSuffix(w, w) && HasPrefix(ts[i + 1], ts[i + 1]);
    PhraseFound(ts, i, w, ValueShown(m, source, w));
  }

  lemma LinkTypeFound(m: Config, source: string)
    requires Kind(m) != "vxlan"
    ensures Contains(Join(AllWords(m, source), " "), "link/" + Kind(m))
  {
    hide Contains, Join, AllWords;
    var i := LinkTypePlace(m, source);
    WordFound(AllWords(m, source), i, "link/" + Kind(m));
  }

  ghost predicate AllFound(m: Config, source: string, text: string) {
    forall w | ShowsKeyword(m, w) && ValueShown(m, source, w) != "" ::
        Contains(text, w + " " + ValueShown(m, source, w))
  }

  lemma EverythingFound(m: Config, source: string)
    ensures AllFound(m, source, Join(AllWords(m, source), " "))
  {
    hide Contains, Join, AllWords, ValueShown, ShowsKeyword;
    forall w | ShowsKeyword(m, w) && ValueShown(m, source, w) != ""
      ensures Contains(Join(AllWords(m, source), " "), w + " " + ValueShown(m, source, w))
    {
      ShownFound(m, source, w);
    }
  }

  lemma OwnVxlan(c: Config, source: string)
    requires Kind(c) == "vxlan"
    ensures MatchesVxlan(Join(AllWords(c, source), " "), c)
  {
    hide Contains, Join, AllWords, ItoaInt, Kind;
    var text := Join(AllWords(c, source), " ");
    EverythingFound(c, source);
    VniFound(c, source);
    WordsOfPatterns(c);
    assert ShowsKeyword(c, "remote") && ShowsKeyword(c, "local") && ShowsKeyword(c, "dev")
        && ShowsKeyword(c, "dstport");
  }

  lemma OwnTunnel(c: Config, source: string)
    requires Kind(c) != "vxlan"
    ensures MatchesTunnel(Join(AllWords(c, source), " "), c)
            <==> c.dev == "" || !Contains(Join(AllWords(c, source), " "), "local any")
  {
    hide Contains, Join, AllWords, ItoaInt, Kind, HasPrefix;
    var text := Join(AllWords(c, source), " ");
    EverythingFound(c, source);
    LinkTypeFound(c, source);
    WordsOfPatterns(c);
    if c.remote != "" { WholePrefix(c.remote); TunnelRemoteFound(c, source, c.remote); }
    assert ShowsKeyword(c, "local") && ShowsKeyword(c, "dev") && ShowsKeyword(c, "key");
  }

  lemma WholePrefix(s: string)
    ensures HasPrefix(s, s)
  {
  }

  /** Only the source address of a tunnel can make its text hold "local any", whatever its other words are. */
  lemma LocalAnyIff(c: Config, source: string)
    requires Kind(c) != "vxlan" && IsToken(c.name) && WordConfig(c) && IsToken(source)
    ensures Contains(Join(AllWords(c, source), " "), "local any") <==> HasPrefix(LocalShown(c, source), "any")
  {
    hide Contains, Join, AllWords, HasPrefix, HasSuffix, LocalShown;
    TokensOfTunnel(c, source);
    MoreOrdinaryWords();
    KeywordsAreOrdinary();
    assert "local" + " " + "any" == "local any";
    PhraseIff(AllWords(c, source), "local", "any");
    if HasPhrase(AllWords(c, source), "local", "any") {
      var i :| 0 <= i < |AllWords(c, source)| - 1 && HasSuffix(AllWords(c, source)[i], "local")
          && HasPrefix(AllWords(c, source)[i + 1], "any");
      AnyPlace(c, source, i + 1);
    }
    if HasPrefix(LocalShown(c, source), "any") {
      LocalPlace(c, source);
      assert HasSuffix(AllWords(c, source)[10], "local") by { WholeSuffix("local"); }
    }
  }

  lemma WholeSuffix(s: string)
    ensures HasSuffix(s, s)
  {
  }

  /** The first twelve words of a tunnel, and the rest. */
  function TunnelStart(c: Config, source: string): Argv {
    Header(c.name) + ["link/" + Kind(c), "0.0.0.0", "brd", "0.0.0.0", Kind(c), "remote", RemoteShown(c), "local",
                      LocalShown(c, source)]
  }

  function TunnelRest(c: Config): Argv { Opt("dev", c.dev) + TTL + Opt("key", NumberOf(GreKey(c))) }

  lemma TunnelSplit(c: Config, source: string)
    requires Kind(c) != "vxlan" && source != ""
    ensures AllWords(c, source) == TunnelStart(c, source) + TunnelRest(c)
  {
    hide Header, Opt, NumberOf, GreKey;
    var parts := Segments(c, source);
    assert Opt("remote", RemoteShown(c)) == ["remote", RemoteShown(c)] by { SetPair("remote", RemoteShown(c)); }
    assert Opt("local", LocalShown(c, source)) == ["local", LocalShown(c, source)]
        by { SetPair("local", LocalShown(c, source)); }
    SevenParts(parts);
  }

  lemma SetPair(k: string, v: string)
    requires v != ""
    ensures Opt(k, v) == [k, v]
  {
  }

  lemma SevenParts(parts: seq<Argv>)
    requires |parts| == 7
    ensures Concat(parts) == parts[0] + parts[1] + parts[2] + (parts[3] + parts[4] + parts[5]) + parts[6]
  {
    assert parts[1..][1..] == parts[2..] && parts[2..][1..] == parts[3..] && parts[3..][1..] == parts[4..];
    assert parts[4..][1..] == parts[5..] && parts[5..][1..] == parts[6..] && parts[6..][1..] == [];
    assert Concat(parts[6..]) == parts[6];
    assert Concat(parts[5..]) == parts[5] + Concat(parts[6..]);
    assert Concat(parts[4..]) == parts[4] + Concat(parts[5..]);
    assert Concat(parts[3..]) == parts[3] + Concat(parts[4..]);
    assert Concat(parts[2..]) == parts[2] + Concat(parts[3..]);
    assert Concat(parts[1..]) == parts[1] + Concat(parts[2..]);
  }

  lemma TokensOfTunnel(c: Config, source: string)
    requires Kind(c) != "vxlan" && IsToken(c.name) && WordConfig(c) && IsToken(source)
    ensures AllTokens(AllWords(c, source))
  {
    hide AllWords, ItoaInt, IsToken;
    TokenNotEmpty(source);
    TunnelSplit(c, source);
    ItoaIntIsToken(GreKey(c));
    HeadWords();
    SlashWords();
    HeaderWords();
    KeyWords();
    NameToken(c.name);
    var start := TunnelStart(c, source);
    forall i | 0 <= i < |start| ensures IsToken(start[i]) { }
  }

  lemma TokenNotEmpty(s: string)
    requires IsToken(s)
    ensures s != ""
  {
  }

  lemma HeaderWords()
    ensures IsToken("9:") && IsToken("<UP,LOWER_UP>") && IsToken("ipip") && IsToken("gre") && IsToken("any")
  {
  }

  lemma KeyWords()
    ensures IsToken("remote") && IsToken("local") && IsToken("dev") && IsToken("ttl") && IsToken("inherit")
            && IsToken("key")
  {
  }

  lemma NameToken(name: string)
    requires IsToken(name)
    ensures IsToken(name + ":")
  {
    var v := name + ":";
    assert forall i | 0 <= i < |name| :: v[i] == name[i];
  }

  /** A word that starts with "any" and follows one that ends with "local" is the source address. */
  lemma AnyPlace(c: Config, source: string, i: nat)
    requires Kind(c) != "vxlan" && source != "" && 0 < i < |AllWords(c, source)|
    requires HasSuffix(AllWords(c, source)[i - 1], "local") && HasPrefix(AllWords(c, source)[i], "any")
    ensures HasPrefix(LocalShown(c, source), "any")
  {
    hide AllWords, HasSuffix, HasPrefix, ItoaInt, LocalShown, RemoteShown;
    TunnelSplit(c, source);
    NoAny();
    NoLocal();
    var start, rest := TunnelStart(c, source), TunnelRest(c);
    if i < |start| {
      assert AllWords(c, source)[i] == start[i] && AllWords(c, source)[i - 1] == start[i - 1];
      StartAny(c, source, i);
    } else {
      assert AllWords(c, source)[i] == rest[i - 12];
      if i > 12 { assert AllWords(c, source)[i - 1] == rest[i - 13]; }
      RestAny(c, i - 12);
    }
  }

  lemma OtherStart(s: string)
    requires s != "" && s[0] != 'a'
    ensures !HasPrefix(s, "any")
  {
    assert "any"[0] == 'a';
  }

  lemma NoAny()
    ensures !HasPrefix("<UP,LOWER_UP>", "any") && !HasPrefix("link/ipip", "any") && !HasPrefix("link/gre", "any")
    ensures !HasPrefix("0.0.0.0", "any") && !HasPrefix("brd", "any") && !HasPrefix("ipip", "any")
            && !HasPrefix("gre", "any")
    ensures !HasPrefix("remote", "any") && !HasPrefix("local", "any") && !HasPrefix("dev", "any")
            && !HasPrefix("ttl", "any")
    ensures !HasPrefix("inherit", "any") && !HasPrefix("key", "any")
  {
    hide HasPrefix;
    OtherStart("<UP,LOWER_UP>");
    OtherStart("link/ipip");
    OtherStart("link/gre");
    OtherStart("0.0.0.0");
    OtherStart("brd");
    OtherStart("ipip");
    OtherStart("gre");
    OtherStart("remote");
    OtherStart("local");
    OtherStart("dev");
    OtherStart("ttl");
    OtherStart("inherit");
    OtherStart("key");
  }

  lemma NoLocal()
    ensures !HasSuffix("9:", "local") && !HasSuffix("remote", "local") && !HasSuffix("dev", "local")
            && !HasSuffix("key", "local")
  {
  }

  lemma StartAny(c: Config, source: string, i: nat)
    requires Kind(c) != "vxlan" && 0 < i < |TunnelStart(c, source)| && HasPrefix(TunnelStart(c, source)[i], "any")
    ensures i == 1 || i == 9 || i == 11
    ensures TunnelStart(c, source)[0] == "9:" && TunnelStart(c, source)[8] == "remote"
    ensures |TunnelStart(c, source)| == 12 && TunnelStart(c, source)[11] == LocalShown(c, source)
  {
    hide HasPrefix, LocalShown, RemoteShown;
    NoAny();
    SlashWords();
  }

  lemma RestAny(c: Config, j: nat)
    requires j < |TunnelRest(c)| && HasPrefix(TunnelRest(c)[j], "any")
    ensures 0 < j && (TunnelRest(c)[j - 1] == "dev" || TunnelRest(c)[j - 1] == "key")
  {
    hide HasPrefix, ItoaInt;
    NoAny();
    var d := Opt("dev", c.dev);
    assert |d| == 0 || (|d| == 2 && d[0] == "dev");
  }

  lemma LocalPlace(c: Config, source: string)
    requires Kind(c) != "vxlan" && source != ""
    ensures |AllWords(c, source)| > 11 && AllWords(c, source)[10] == "local"
            && AllWords(c, source)[11] == LocalShown(c, source)
  {
    hide AllWords, LocalShown, RemoteShown;
    TunnelSplit(c, source);
  }

  /** A link is accepted for the configuration that made it, unless it is a tunnel with an underlay
      device whose source address the kernel left open. Addresses and names only have to be words. */
  lemma OwnConfigAccepted(c: Config, source: string)
    requires IsToken(c.name) && WordConfig(c) && IsToken(source)
    ensures Matches(Show(AddArgs(c), source), c)
            <==> Kind(c) == "vxlan" || c.dev == "" || !HasPrefix(LocalShown(c, source), "any")
  {
    hide Show, AddArgs, IsToken, ItoaInt, AllWords, Segments, Join, Concat, TrimSpace, HasPrefix, Contains, Kind,
         MatchesTunnel, MatchesVxlan;
    TokenNotEmpty(source);
    VisibleShow(AddArgs(c), source);
    assert Join(AllWords(c, source), " ") == Show(AddArgs(c), source) by { WordsShown(c, source); }
    if Kind(c) == "vxlan" {
      OwnVxlan(c, source);
    } else {
      OwnTunnel(c, source);
      LocalAnyIff(c, source);
    }
  }

  lemma WordsShown(c: Config, source: string)
    requires source != ""
    ensures Join(AllWords(c, source), " ") == Show(AddArgs(c), source)
  {
    hide Show, AddArgs, Segments, Join, Concat;
    ShowOfCreated(c, source);
  }
}
