/** The string helpers of Go's `strings` and `strconv` packages that the agent relies on, with the
    round-trip facts the reconcilers need: a text diff is only as good as Split, Fields and Join. */
module Text {

  /** unicode.IsSpace. */
  predicate IsSpace(c: char) {
    || c in "\t\n\r "
    || c == 11 as char || c == 12 as char || c == '\U{85}' || c == '\U{A0}' || c == '\U{1680}'
    || '\U{2000}' <= c <= '\U{200A}'
    || c == '\U{2028}' || c == '\U{2029}' || c == '\U{202F}' || c == '\U{205F}' || c == '\U{3000}'
  }

  /** By code point: the six ASCII blanks, and what Unicode calls a space, line or paragraph separator. */
  lemma SpacesAre(c: char)
    ensures var n := c as int;
            IsSpace(c) <==>
              || 9 <= n <= 13 || n == 32 || n == 133 || n == 160 || n == 5760 || 8192 <= n <= 8202
              || n == 8232 || n == 8233 || n == 8239 || n == 8287 || n == 12288
  {
    assert IsSpace(c) <==> c in "\t\n\r " || (c != ' ' && c != '\t' && c != '\n' && c != '\r' && IsSpace(c));
    assert "\t\n\r " == ['\t', '\n', '\r', ' '];
  }

  /** A non-empty run without white space: what strings.Fields returns. */
  predicate IsToken(t: string) {
    t != "" && forall i | 0 <= i < |t| :: !IsSpace(t[i])
  }

  ghost predicate AllTokens(ts: seq<string>) {
    forall i | 0 <= i < |ts| :: IsToken(ts[i])
  }

  predicate HasPrefix(s: string, p: string) { p <= s }

  predicate HasSuffix(s: string, p: string) {
    |p| <= |s| && s[|s| - |p|..] == p
  }

  /** strings.Contains. */
  predicate Contains(s: string, p: string) {
    exists i | 0 <= i <= |s| - |p| :: s[i..][..|p|] == p
  }

  function TrimLeft(s: string): string {
    if s != "" && IsSpace(s[0]) then TrimLeft(s[1..]) else s
  }

  function TrimRight(s: string): string {
    if s != "" && IsSpace(s[|s| - 1]) then TrimRight(s[..|s| - 1]) else s
  }

  /** strings.TrimSpace. */
  function TrimSpace(s: string): string {
    TrimRight(TrimLeft(s))
  }

  /** Length of the token at the start of s. */
  function TokenLength(s: string): (n: nat)
    ensures n <= |s|
    ensures forall i | 0 <= i < n :: !IsSpace(s[i])
    ensures n < |s| ==> IsSpace(s[n])
  {
    if s == "" || IsSpace(s[0]) then 0 else 1 + TokenLength(s[1..])
  }

  /** strings.Fields. */
  function Fields(s: string): seq<string> {
    if s == "" then []
    else if IsSpace(s[0]) then Fields(s[1..])
    else
      var n := TokenLength(s);
      [s[..n]] + Fields(s[n..])
  }

  /** strings.Join. */
  function Join(ts: seq<string>, sep: string): string {
    if ts == [] then ""
    else if |ts| == 1 then ts[0]
    else ts[0] + sep + Join(ts[1..], sep)
  }

  /** Length of the part of s before the first sep (all of s when there is none). */
  function PartLength(s: string, sep: char): (n: nat)
    ensures n <= |s|
    ensures sep !in s[..n]
    ensures n < |s| ==> s[n] == sep
  {
    if s == "" || s[0] == sep then 0 else 1 + PartLength(s[1..], sep)
  }

  /** strings.Split with a one-character separator: never empty. */
  function Split(s: string, sep: char): (parts: seq<string>)
    ensures parts != []
    decreases |s|
  {
    var n := PartLength(s, sep);
    if n == |s| then [s] else [s[..n]] + Split(s[n + 1..], sep)
  }

  // ---- operator-written lines -------------------------------------------------------------------

  /** The trimmed lines that are neither blank nor comments. */
  function Kept(lines: seq<string>): seq<string> {
    if lines == [] then [] else
      var ln := TrimSpace(lines[|lines| - 1]);
      Kept(lines[..|lines| - 1]) + if ln != "" && !HasPrefix(ln, "#") then [ln] else []
  }

  method KeepLines(parts: seq<string>) returns (lines: seq<string>)
    ensures lines == Kept(parts)
  {
    hide TrimSpace;
    lines := [];
    for i := 0 to |parts|
      invariant lines == Kept(parts[..i])
    {
      assert parts[..i + 1][..i] == parts[..i];
      var ln := TrimSpace(parts[i]);
      if ln != "" && !HasPrefix(ln, "#") {
        lines := lines + [ln];
      }
    }
    assert parts[..|parts|] == parts;
  }

  // ---- what trimming and keeping do -------------------------------------------------------------

  ghost predicate AllSpace(s: string) { forall i | 0 <= i < |s| :: IsSpace(s[i]) }

  /** There is something to read in s. */
  ghost predicate HasWord(s: string) { exists i | 0 <= i < |s| :: !IsSpace(s[i]) }

  /** Trimming takes white space off both ends, all of it and nothing else. */
  lemma {:induction false} TrimSpaceIs(s: string) returns (a: string, b: string)
    ensures s == a + TrimSpace(s) + b && AllSpace(a) && AllSpace(b)
    ensures TrimSpace(s) != "" ==> !IsSpace(TrimSpace(s)[0]) && !IsSpace(TrimSpace(s)[|TrimSpace(s)| - 1])
    decreases |s|
  {
    if s != "" && IsSpace(s[0]) {
      a, b := TrimSpaceIs(s[1..]);
      a := [s[0]] + a;
      assert s == [s[0]] + s[1..];
    } else {
      a := "";
      b := TrimRightIs(s);
    }
  }

  lemma {:induction false} TrimRightIs(s: string) returns (b: string)
    requires s != "" ==> !IsSpace(s[0])
    ensures s == TrimRight(s) + b && AllSpace(b)
    ensures TrimRight(s) != "" ==> !IsSpace(TrimRight(s)[0]) && !IsSpace(TrimRight(s)[|TrimRight(s)| - 1])
    decreases |s|
  {
    if s != "" && IsSpace(s[|s| - 1]) {
      b := TrimRightIs(s[..|s| - 1]);
      assert s == s[..|s| - 1] + [s[|s| - 1]];
      b := b + [s[|s| - 1]];
    } else {
      b := "";
    }
  }

  /** And so it is determined. */
  lemma {:induction false} TrimmedIs(a: string, s: string, b: string)
    requires AllSpace(a) && AllSpace(b)
    requires s != "" ==> !IsSpace(s[0]) && !IsSpace(s[|s| - 1])
    ensures TrimSpace(a + s + b) == s
    decreases |a|
  {
    if a == "" {
      assert a + s + b == s + b;
      TrimRightEnd(s, b);
      if s == "" {
        assert s + b == b;
        LeftOfSpace(b);
      } else {
        assert (s + b)[0] == s[0];
        assert TrimLeft(s + b) == s + b;
      }
    } else {
      assert (a + s + b)[1..] == a[1..] + s + b && (a + s + b)[0] == a[0];
      TrimmedIs(a[1..], s, b);
    }
  }

  lemma {:induction false} TrimRightEnd(s: string, b: string)
    requires AllSpace(b) && (s != "" ==> !IsSpace(s[|s| - 1]))
    ensures TrimRight(s + b) == s
    decreases |b|
  {
    if b == "" {
      assert s + b == s;
    } else {
      assert (s + b)[..|s + b| - 1] == s + b[..|b| - 1];
      TrimRightEnd(s, b[..|b| - 1]);
    }
  }

  lemma {:induction false} LeftOfSpace(b: string)
    requires AllSpace(b)
    ensures TrimLeft(b) == ""
    decreases |b|
  {
    if b != "" { LeftOfSpace(b[1..]); }
  }

  lemma TrimTwice(s: string)
    ensures TrimSpace(TrimSpace(s)) == TrimSpace(s)
  {
    hide TrimSpace;
    var a, b := TrimSpaceIs(s);
    TrimKeeps(TrimSpace(s));
  }

  /** Something is left exactly when there was something to read. */
  lemma TrimmedIff(s: string)
    ensures TrimSpace(s) != "" <==> HasWord(s)
  {
    hide TrimSpace;
    var a, b := TrimSpaceIs(s);
    if TrimSpace(s) != "" { assert s[|a|] == TrimSpace(s)[0]; }
  }

  lemma {:induction false} BlankFields(a: string, s: string)
    requires AllSpace(a)
    ensures Fields(a + s) == Fields(s)
    decreases |a|
  {
    if a == "" {
      assert a + s == s;
    } else {
      assert (a + s)[1..] == a[1..] + s;
      BlankFields(a[1..], s);
    }
  }

  /** White space at the ends does not change the words. */
  lemma TrimmedFields(s: string)
    ensures Fields(TrimSpace(s)) == Fields(s)
  {
    hide TrimSpace, Fields;
    var a, b := TrimSpaceIs(s);
    var t := TrimSpace(s);
    assert s == a + (t + b);
    BlankFields(a, t + b);
    if b == "" {
      assert t + b == t;
    } else {
      assert t + b == t + [b[0]] + b[1..];
      FieldsSplit(t, b[0], b[1..]);
      BlankFields(b[1..], "");
      assert b[1..] + "" == b[1..];
      FieldsOfNothing();
    }
  }

  lemma FieldsOfNothing()
    ensures Fields("") == []
  {
  }

  /** A line the operator means: it has a word, and the first one is no comment sign. */
  predicate Meant(line: string) {
    Fields(line) != [] && Fields(line)[0] != "" && Fields(line)[0][0] != '#'
  }

  lemma FirstWord(t: string)
    requires t != "" ==> !IsSpace(t[0])
    ensures t == "" ==> Fields(t) == []
    ensures t != "" ==> Fields(t) != [] && Fields(t)[0] != "" && Fields(t)[0][0] == t[0]
  {
  }

  lemma KeptOne(line: string)
    ensures TrimSpace(line) != "" && !HasPrefix(TrimSpace(line), "#") <==> Meant(line)
  {
    hide TrimSpace, Fields;
    var a, b := TrimSpaceIs(line);
    TrimmedFields(line);
    FirstWord(TrimSpace(line));
  }

  ghost predicate Increasing(at: seq<nat>) {
    forall i, j | 0 <= i < j < |at| :: at[i] < at[j]
  }

  /** `out` is what the lines at these positions become when trimmed. */
  ghost predicate TrimmedAt(lines: seq<string>, at: seq<nat>, out: seq<string>) {
    |at| == |out| && forall i | 0 <= i < |at| :: at[i] < |lines| && out[i] == TrimSpace(lines[at[i]])
  }

  lemma KeptPush(lines: seq<string>, n: nat)
    requires n < |lines|
    ensures Kept(lines[..n + 1])
            == if Meant(lines[n]) then Kept(lines[..n]) + [TrimSpace(lines[n])] else Kept(lines[..n])
  {
    hide TrimSpace, Meant;
    assert lines[..n + 1][..n] == lines[..n];
    KeptOne(lines[n]);
  }

  lemma PicksPush(lines: seq<string>, at: seq<nat>, out: seq<string>, n: nat)
    requires n < |lines| && TrimmedAt(lines, at, out) && Increasing(at) && forall i | 0 <= i < |at| :: at[i] < n
    ensures TrimmedAt(lines, at + [n], out + [TrimSpace(lines[n])]) && Increasing(at + [n])
  {
    hide TrimSpace;
  }

  /** Which lines are kept: the meant ones, all of them, in order, each of them trimmed. */
  lemma KeptPicks(lines: seq<string>) returns (at: seq<nat>)
    ensures TrimmedAt(lines, at, Kept(lines)) && Increasing(at)
    ensures forall k: nat | k < |lines| :: k in at <==> Meant(lines[k])
  {
    hide TrimSpace, Meant, Kept, TrimmedAt, Increasing;
    at := [];
    NothingKept(lines);
    for n := 0 to |lines|
      invariant TrimmedAt(lines, at, Kept(lines[..n])) && Increasing(at)
      invariant forall i | 0 <= i < |at| :: at[i] < n
      invariant forall k: nat | k < n :: k in at <==> Meant(lines[k])
    {
      KeptPush(lines, n);
      if Meant(lines[n]) {
        PicksPush(lines, at, Kept(lines[..n]), n);
        at := at + [n];
      }
    }
    assert lines[..|lines|] == lines;
  }

  lemma NothingKept(lines: seq<string>)
    ensures TrimmedAt(lines, [], Kept(lines[..0])) && Increasing([])
  {
  }

  lemma KeptMembers(lines: seq<string>, ln: string)
    ensures ln in Kept(lines) <==> exists line :: line in lines && Meant(line) && ln == TrimSpace(line)
  {
    hide TrimSpace, Meant, Kept;
    var at := KeptPicks(lines);
    assert |at| == |Kept(lines)|;
    if ln in Kept(lines) {
      var i :| 0 <= i < |at| && Kept(lines)[i] == ln;
      assert lines[at[i]] in lines;
    }
    if line :| line in lines && Meant(line) && ln == TrimSpace(line) {
      var k :| 0 <= k < |lines| && lines[k] == line;
      var i :| 0 <= i < |at| && at[i] == k;
      assert Kept(lines)[i] == ln;
    }
  }

  // ---- Fields and Join --------------------------------------------------------------------------

  lemma {:induction false} FieldsAreTokens(s: string)
    ensures AllTokens(Fields(s))
    decreases |s|
  {
    if s == "" {
    } else if IsSpace(s[0]) {
      FieldsAreTokens(s[1..]);
    } else {
      FieldsAreTokens(s[TokenLength(s)..]);
    }
  }

  lemma TokenLengthIs(s: string, n: nat)
    requires n <= |s|
    requires forall i | 0 <= i < n :: !IsSpace(s[i])
    requires n < |s| ==> IsSpace(s[n])
    ensures TokenLength(s) == n
  {
    var m := TokenLength(s);
  }

  /** Splitting at a white-space character splits the fields. */
  lemma {:induction false} FieldsSplit(a: string, c: char, b: string)
    requires IsSpace(c)
    ensures Fields(a + [c] + b) == Fields(a) + Fields(b)
    decreases |a|
  {
    hide TokenLength;
    var s := a + [c] + b;
    if a == "" {
      assert s[1..] == b;
    } else if IsSpace(a[0]) {
      assert s[0] == a[0] && s[1..] == a[1..] + [c] + b;
      FieldsSplit(a[1..], c, b);
    } else {
      var n := TokenLength(a);
      TokenLengthIs(s, n);
      SplitLater(a, c, b, n);
      FieldsSplit(a[n..], c, b);
      assert Fields(s) == [s[..n]] + Fields(s[n..]);
      assert Fields(a) == [a[..n]] + Fields(a[n..]);
    }
  }

  lemma SplitLater(a: string, c: char, b: string, n: nat)
    requires n <= |a|
    ensures var s := a + [c] + b; s[..n] == a[..n] && s[n..] == a[n..] + [c] + b && (a != "" ==> s[0] == a[0])
  {
  }

  lemma FieldsOfToken(t: string)
    requires IsToken(t)
    ensures Fields(t) == [t]
  {
    TokenLengthIs(t, |t|);
    assert t[..|t|] == t;
    assert t[|t|..] == "";
  }

  /** Splitting a joined token list gives the list back. */
  lemma {:induction false} FieldsOfJoin(ts: seq<string>)
    requires AllTokens(ts)
    ensures Fields(Join(ts, " ")) == ts
  {
    if ts == [] {
    } else if |ts| == 1 {
      FieldsOfToken(ts[0]);
    } else {
      FieldsOfJoin(ts[1..]);
      FieldsOfToken(ts[0]);
      assert Join(ts, " ") == ts[0] + [' '] + Join(ts[1..], " ");
      FieldsSplit(ts[0], ' ', Join(ts[1..], " "));
    }
  }

  lemma {:induction false} JoinConcat(a: seq<string>, b: seq<string>, sep: string)
    requires a != [] && b != []
    ensures Join(a + b, sep) == Join(a, sep) + sep + Join(b, sep)
  {
    if |a| == 1 {
      assert (a + b)[1..] == b;
    } else {
      assert (a + b)[1..] == a[1..] + b;
      JoinConcat(a[1..], b, sep);
    }
  }

  /** A joined token list has no white space at either end. */
  lemma {:induction false} JoinTrimmed(ts: seq<string>)
    requires AllTokens(ts)
    ensures TrimSpace(Join(ts, " ")) == Join(ts, " ")
  {
    var s := Join(ts, " ");
    if ts != [] {
      JoinLast(ts);
      assert s[0] == ts[0][0];
      TrimKeeps(s);
    }
  }

  lemma {:induction false} JoinLast(ts: seq<string>)
    requires AllTokens(ts) && ts != []
    ensures HasSuffix(Join(ts, " "), ts[|ts| - 1])
    ensures Join(ts, " ") != "" && !IsSpace(Join(ts, " ")[|Join(ts, " ")| - 1])
  {
    if |ts| > 1 {
      JoinLast(ts[1..]);
    }
  }

  /** A command word sequence found in front of a joined token list is made of its first tokens. */
  lemma PrefixWords(ts: seq<string>, words: seq<string>)
    requires AllTokens(ts) && AllTokens(words)
    requires HasPrefix(Join(ts, " "), Join(words, " ") + " ")
    ensures words <= ts
  {
    var s, p := Join(ts, " "), Join(words, " ");
    assert s == p + [' '] + s[|p| + 1..];
    FieldsSplit(p, ' ', s[|p| + 1..]);
    FieldsOfJoin(ts);
    FieldsOfJoin(words);
  }

  /** The joined text is a faithful key for a token list. */
  lemma JoinInjective(a: seq<string>, b: seq<string>)
    requires AllTokens(a) && AllTokens(b)
    requires Join(a, " ") == Join(b, " ")
    ensures a == b
  {
    FieldsOfJoin(a);
    FieldsOfJoin(b);
  }

  // ---- Contains ---------------------------------------------------------------------------------

  /** The text around an occurrence of p in s. */
  lemma ContainsSplits(s: string, p: string) returns (a: string, b: string)
    requires Contains(s, p)
    ensures s == a + p + b
  {
    var i :| 0 <= i <= |s| - |p| && s[i..][..|p|] == p;
    a, b := s[..i], s[i..][|p|..];
  }

  lemma Regroup(a: string, p: string, m: string, q: string, b: string)
    ensures a + (p + m + q) + b == (a + p) + m + (q + b)
  {
  }

  lemma ContainsIntro(s: string, a: string, p: string, b: string)
    requires s == a + p + b
    ensures Contains(s, p)
  {
    assert s[|a|..][..|p|] == p;
  }

  lemma {:induction false} LastFieldHasSuffix(a: string, w: string)
    requires IsToken(w)
    ensures Fields(a + w) != [] && HasSuffix(Fields(a + w)[|Fields(a + w)| - 1], w)
    decreases |a|
  {
    var s := a + w;
    if a == "" {
      assert s == w;
      FieldsOfToken(w);
    } else if IsSpace(a[0]) {
      assert s[1..] == a[1..] + w;
      LastFieldHasSuffix(a[1..], w);
    } else {
      var n := TokenLength(s);
      if n == |s| {
        assert s[..n] == s && s[n..] == "";
      } else {
        assert IsSpace(s[n]);
        assert forall j | |a| <= j < |s| :: !IsSpace(s[j]) by {
          assert forall j | |a| <= j < |s| :: s[j] == w[j - |a|];
        }
        assert s[n..] == a[n..] + w;
        assert n > 0;
        LastFieldHasSuffix(a[n..], w);
      }
    }
  }

  lemma FirstFieldHasPrefix(x: string, b: string)
    requires IsToken(x)
    ensures Fields(x + b) != [] && HasPrefix(Fields(x + b)[0], x)
  {
    var s := x + b;
    var n := TokenLength(s);
    assert !IsSpace(s[0]) by { assert s[0] == x[0]; }
    assert forall j | 0 <= j < |x| :: s[j] == x[j];
    assert s[..n][..|x|] == x;
  }

  /** Wherever "w x" occurs in a text, w ends a field and x starts the next one. */
  lemma AdjacentFields(s: string, w: string, x: string) returns (i: nat)
    requires IsToken(w) && IsToken(x)
    requires Contains(s, w + " " + x)
    ensures i + 1 < |Fields(s)|
    ensures HasSuffix(Fields(s)[i], w) && HasPrefix(Fields(s)[i + 1], x)
  {
    var a, b := ContainsSplits(s, w + " " + x);
    assert s == (a + w) + [' '] + (x + b);
    FieldsSplit(a + w, ' ', x + b);
    LastFieldHasSuffix(a, w);
    FirstFieldHasPrefix(x, b);
    i := |Fields(a + w)| - 1;
  }

  /** With a trailing space the last word is matched exactly. */
  lemma ExactFields(s: string, w: string, x: string, y: string) returns (i: nat)
    requires IsToken(w) && IsToken(x) && IsToken(y)
    requires Contains(s, w + " " + x + " " + y + " ")
    ensures i + 2 < |Fields(s)|
    ensures HasSuffix(Fields(s)[i], w) && Fields(s)[i + 1] == x && Fields(s)[i + 2] == y
  {
    var a, b := ContainsSplits(s, w + " " + x + " " + y + " ");
    var r1 := x + [' '] + (y + [' '] + b);
    var r2 := y + [' '] + b;
    assert s == (a + w) + [' '] + r1;
    FieldsSplit(a + w, ' ', r1);
    FieldsSplit(x, ' ', r2);
    FieldsSplit(y, ' ', b);
    FieldsOfToken(x);
    FieldsOfToken(y);
    LastFieldHasSuffix(a, w);
    i := |Fields(a + w)| - 1;
  }

  /** A word that occurs in a text occurs inside one of its fields. */
  lemma {:induction false} WordInField(a: string, w: string, b: string)
    requires IsToken(w)
    ensures exists i | 0 <= i < |Fields(a + w + b)| :: Contains(Fields(a + w + b)[i], w)
    decreases |a|
  {
    hide TokenLength;
    var s := a + w + b;
    if a != "" && IsSpace(a[0]) {
      assert s[1..] == a[1..] + w + b;
      WordInField(a[1..], w, b);
      assert s[0] == a[0] && Fields(s) == Fields(a[1..] + w + b);
    } else {
      var n := TokenLength(s);
      assert forall j | |a| <= j < |a| + |w| :: s[j] == w[j - |a|];
      if n >= |a| {
        hide Contains;
        assert n >= |a| + |w|;
        var rest := s[|a| + |w|..n];
        assert s[..n] == a + w + rest;
        ContainsIntro(s[..n], a, w, rest);
        assert Fields(s)[0] == s[..n];
      } else {
        assert s[n..] == a[n..] + w + b;
        WordInField(a[n..], w, b);
        assert Fields(s) == [s[..n]] + Fields(s[n..]);
        var i :| 0 <= i < |Fields(s[n..])| && Contains(Fields(s[n..])[i], w);
        assert Fields(s)[i + 1] == Fields(s[n..])[i];
      }
    }
  }

  /** Two neighbours of a joined list are found in the text, separated by the blank. */
  lemma {:induction false} NeighboursFound(ts: seq<string>, i: nat) returns (a: string, b: string)
    requires i + 1 < |ts|
    ensures Join(ts, " ") == a + (ts[i] + " " + ts[i + 1]) + b
    ensures i + 2 < |ts| ==> b != "" && b[0] == ' '
  {
    if i == 0 {
      a := "";
      b := if |ts| == 2 then "" else " " + Join(ts[2..], " ");
      assert ts[1..][1..] == ts[2..];
      assert Join(ts, " ") == ts[0] + " " + Join(ts[1..], " ");
      assert Join(ts[1..], " ") == ts[1] + b;
    } else {
      var a', b' := NeighboursFound(ts[1..], i - 1);
      a, b := ts[0] + " " + a', b';
      var mid := ts[i] + " " + ts[i + 1];
      assert Join(ts[1..], " ") == a' + mid + b';
      assert Join(ts, " ") == ts[0] + " " + (a' + mid + b');
      assert ts[0] + " " + (a' + mid + b') == a + mid + b;
    }
  }

  // ---- Split and TrimSpace ----------------------------------------------------------------------

  lemma PartLengthIs(part: string, sep: char, rest: string)
    requires sep !in part
    ensures PartLength(part, sep) == |part|
    ensures PartLength(part + [sep] + rest, sep) == |part|
  {
    assert forall j | 0 <= j < |part| :: part[j] in part;
    var s := part + [sep] + rest;
    var n := PartLength(s, sep);
    assert s[|part|] == sep && forall j | 0 <= j < |part| :: s[j] == part[j];
    assert forall j | 0 <= j < n :: s[j] in s[..n];
  }

  lemma {:induction false} SplitOfJoin(parts: seq<string>, sep: char)
    requires parts != []
    requires forall i | 0 <= i < |parts| :: sep !in parts[i]
    ensures Split(Join(parts, [sep]), sep) == parts
  {
    hide PartLength;
    if |parts| == 1 {
      PartLengthIs(parts[0], sep, "");
    } else {
      var rest := Join(parts[1..], [sep]);
      var s := parts[0] + [sep] + rest;
      PartLengthIs(parts[0], sep, rest);
      assert s[..|parts[0]|] == parts[0] && s[|parts[0]| + 1..] == rest;
      SplitOfJoin(parts[1..], sep);
    }
  }

  lemma TrimKeeps(s: string)
    requires s != "" ==> !IsSpace(s[0]) && !IsSpace(s[|s| - 1])
    ensures TrimSpace(s) == s
  {
  }

  /** strconv.Itoa. */
  function ItoaInt(n: int): (s: string)
    ensures s != ""
  {
    if n < 0 then "-" + Itoa(-n) else Itoa(n)
  }

  lemma ItoaIntIsToken(n: int)
    ensures IsToken(ItoaInt(n))
  {
  }

  lemma ItoaIntInjective(m: int, n: int)
    requires ItoaInt(m) == ItoaInt(n)
    ensures m == n
  {
    assert forall k: int :: ItoaInt(k)[0] == '-' <==> k < 0 by {
      forall k: int ensures ItoaInt(k)[0] == '-' <==> k < 0 { assert k >= 0 ==> '0' <= ItoaInt(k)[0]; }
    }
    if m < 0 {
      assert ItoaInt(m)[1..] == Itoa(-m) && ItoaInt(n)[1..] == Itoa(-n);
      ItoaInjective(-m, -n);
    } else {
      ItoaInjective(m, n);
    }
  }

  // ---- decimal numbers --------------------------------------------------------------------------

  function Digit(d: nat): (c: char)
    requires d < 10
    ensures '0' <= c <= '9' && (c as int) - ('0' as int) == d
  {
    ('0' as int + d) as char
  }

  /** strconv.Itoa for the non-negative numbers the agent prints. */
  function Itoa(n: nat): (s: string)
    ensures s != ""
    ensures forall i | 0 <= i < |s| :: '0' <= s[i] <= '9'
  {
    if n < 10 then [Digit(n)] else Itoa(n / 10) + [Digit(n % 10)]
  }

  lemma ItoaIsToken(n: nat)
    ensures IsToken(Itoa(n))
  {
  }

  lemma {:induction false} ItoaInjective(m: nat, n: nat)
    requires Itoa(m) == Itoa(n)
    ensures m == n
  {
    var a, b := Itoa(m), Itoa(n);
    assert a[|a| - 1] == Digit(m % 10) && b[|b| - 1] == Digit(n % 10);
    assert (|a| >= 2 <==> m >= 10) && (|b| >= 2 <==> n >= 10);
    if m >= 10 && n >= 10 {
      assert a[..|a| - 1] == Itoa(m / 10) && b[..|b| - 1] == Itoa(n / 10);
      ItoaInjective(m / 10, n / 10);
    }
  }
}
