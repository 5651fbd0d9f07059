/** selfupdate/selfupdate.go: reading version names and deciding which one is newer. */
module Version {
  import opened Text

  const WORD: nat := 0x1_0000_0000_0000_0000
  const HALF: nat := 0x8000_0000_0000_0000

  /** Go's int wraps around at 64 bits. */
  function Wrap(n: int): int { (n + HALF) % WORD - HALF }

  predicate IsDigit(c: char) { '0' <= c <= '9' }

  function DigitValue(c: char): nat
    requires IsDigit(c)
  {
    c as int - '0' as int
  }

  /** The number the leading digits of a part spell, after n. */
  function ReadDigits(part: string, n: int): int {
    if part == "" || !IsDigit(part[0]) then n else ReadDigits(part[1..], Wrap(n * 10 + DigitValue(part[0])))
  }

  method ReadPart(part: string) returns (n: int)
    ensures n == ReadDigits(part, 0)
  {
    n := 0;
    for i := 0 to |part|
      invariant ReadDigits(part, 0) == ReadDigits(part[i..], n)
    {
      assert part[i..][1..] == part[i + 1..];
      if !IsDigit(part[i]) { break; }
      n := Wrap(n * 10 + DigitValue(part[i]));
    }
  }

  function ReadAll(parts: seq<string>): seq<int> {
    seq(|parts|, i requires 0 <= i < |parts| => ReadDigits(parts[i], 0))
  }

  /** The name without blanks around it and without one leading v. */
  function Stripped(v: string): string {
    var s := TrimSpace(v);
    TrimSpace(if HasPrefix(s, "v") then s[1..] else s)
  }

  function VersionParts(v: string): seq<int> {
    if Stripped(v) == "" then [] else ReadAll(Split(Stripped(v), '.'))
  }

  method ReadVersion(v: string) returns (out: seq<int>)
    ensures out == VersionParts(v)
  {
    hide TrimSpace, ReadDigits, Split;
    var s := Stripped(v);
    if s == "" { return []; }
    var parts := Split(s, '.');
    out := [];
    for i := 0 to |parts|
      invariant out == ReadAll(parts[..i])
    {
      var n := ReadPart(parts[i]);
      out := out + [n];
    }
    assert parts[..|parts|] == parts;
  }

  // ---- the order --------------------------------------------------------------------------------

  /** A list of parts goes on with zeros. */
  function At(p: seq<int>, i: nat): int { if i < |p| then p[i] else 0 }

  ghost predicate AgreeUpTo(p: seq<int>, q: seq<int>, n: nat) {
    forall i: nat | i < n :: At(p, i) == At(q, i)
  }

  /** At the first difference p is the larger one. */
  ghost predicate Above(p: seq<int>, q: seq<int>) {
    exists n: nat :: AgreeUpTo(p, q, n) && At(p, n) > At(q, n)
  }

  ghost predicate Newer(a: string, b: string) { Above(VersionParts(a), VersionParts(b)) }

  method NewerVersion(a: string, b: string) returns (newer: bool)
    ensures newer <==> Newer(a, b)
  {
    hide VersionParts;
    var p := ReadVersion(a);
    var q := ReadVersion(b);
    var i := 0;
    while i < |p| || i < |q|
      invariant 0 <= i <= |p| || 0 <= i <= |q|
      invariant AgreeUpTo(p, q, i)
      decreases |p| + |q| - i
    {
      var x, y := 0, 0;
      if i < |p| { x := p[i]; }
      if i < |q| { y := q[i]; }
      if x != y {
        DecidedAt(p, q, i);
        return x > y;
      }
      i := i + 1;
    }
    return false;
  }

  /** The first difference decides. */
  lemma DecidedAt(p: seq<int>, q: seq<int>, n: nat)
    requires AgreeUpTo(p, q, n) && At(p, n) != At(q, n)
    ensures Above(p, q) <==> At(p, n) > At(q, n)
  {
    if Above(p, q) {
      var m: nat :| AgreeUpTo(p, q, m) && At(p, m) > At(q, m);
      assert m == n;
    }
  }

  /** Without trailing zeros. */
  function Canonical(p: seq<int>): seq<int> {
    if p != [] && p[|p| - 1] == 0 then Canonical(p[..|p| - 1]) else p
  }

  lemma {:induction false} CanonicalAt(p: seq<int>, i: nat)
    ensures At(Canonical(p), i) == At(p, i)
    ensures Canonical(p) != [] ==> Canonical(p)[|Canonical(p)| - 1] != 0
  {
    if p != [] && p[|p| - 1] == 0 {
      CanonicalAt(p[..|p| - 1], i);
    }
  }

  lemma LongerDiffers(a: seq<int>, b: seq<int>)
    requires |a| > |b| && a[|a| - 1] != 0
    ensures exists i: nat :: At(a, i) != At(b, i)
  {
    assert At(a, |a| - 1) != At(b, |a| - 1);
  }

  /** Two lists agree everywhere exactly when they differ in trailing zeros only. */
  lemma AgreeIff(p: seq<int>, q: seq<int>)
    ensures (forall i: nat :: At(p, i) == At(q, i)) <==> Canonical(p) == Canonical(q)
  {
    var a, b := Canonical(p), Canonical(q);
    forall i: nat ensures At(a, i) == At(p, i) && At(b, i) == At(q, i) { CanonicalAt(p, i); CanonicalAt(q, i); }
    CanonicalAt(p, 0);
    CanonicalAt(q, 0);
    if forall i: nat :: At(p, i) == At(q, i) {
      assert forall i: nat :: At(a, i) == At(b, i);
      if |a| > |b| { LongerDiffers(a, b); }
      if |b| > |a| { LongerDiffers(b, a); }
      forall i: nat | i < |a| ensures a[i] == b[i] { assert At(a, i) == At(p, i) == At(q, i) == At(b, i); }
    }
  }

  lemma FirstDifference(p: seq<int>, q: seq<int>, n: nat) returns (m: nat)
    requires At(p, n) != At(q, n)
    ensures AgreeUpTo(p, q, m) && At(p, m) != At(q, m)
  {
    m := 0;
    while At(p, m) == At(q, m)
      invariant m <= n && AgreeUpTo(p, q, m)
      decreases n - m
    {
      m := m + 1;
    }
  }

  /** The order is total up to trailing zeros: exactly one of newer, older and same holds. */
  lemma Trichotomy(p: seq<int>, q: seq<int>)
    ensures !(Above(p, q) && Above(q, p))
    ensures !Above(p, q) && !Above(q, p) <==> Canonical(p) == Canonical(q)
  {
    AgreeIff(p, q);
    if n: nat :| At(p, n) != At(q, n) {
      var m := FirstDifference(p, q, n);
      DecidedAt(p, q, m);
      DecidedAt(q, p, m);
    }
  }

  lemma AboveTransitive(p: seq<int>, q: seq<int>, r: seq<int>)
    requires Above(p, q) && Above(q, r)
    ensures Above(p, r)
  {
    var m: nat :| AgreeUpTo(p, q, m) && At(p, m) > At(q, m);
    var n: nat :| AgreeUpTo(q, r, n) && At(q, n) > At(r, n);
    var k := if m < n then m else n;
    assert AgreeUpTo(p, r, k) by {
      forall i: nat | i < k ensures At(p, i) == At(r, i) { assert At(p, i) == At(q, i) == At(r, i); }
    }
    assert At(p, k) > At(r, k);
  }

  /** newerVersion is a strict weak order on version names: an upgrade order never leads back, and
      "neither is newer" means the same parts up to trailing zeros. */
  lemma NewerIsStrictWeakOrder(a: string, b: string, c: string)
    ensures !Newer(a, a)
    ensures Newer(a, b) ==> !Newer(b, a)
    ensures Newer(a, b) && Newer(b, c) ==> Newer(a, c)
    ensures !Newer(a, b) && !Newer(b, a) <==> Canonical(VersionParts(a)) == Canonical(VersionParts(b))
    ensures Newer(a, b) ==> Newer(a, c) || Newer(c, b)
  {
    hide VersionParts, Above, Canonical;
    var p, q, r := VersionParts(a), VersionParts(b), VersionParts(c);
    Trichotomy(p, p);
    Trichotomy(p, q);
    Trichotomy(p, r);
    Trichotomy(r, q);
    if Above(p, q) && Above(q, r) { AboveTransitive(p, q, r); }
    if Above(p, q) && Above(r, p) { AboveTransitive(r, p, q); }
    if Above(p, q) && Canonical(r) == Canonical(p) { AboveSame(p, r, q); }
  }

  lemma AboveSame(p: seq<int>, r: seq<int>, q: seq<int>)
    requires Canonical(r) == Canonical(p) && Above(p, q)
    ensures Above(r, q)
  {
    AgreeIff(p, r);
    var n: nat :| AgreeUpTo(p, q, n) && At(p, n) > At(q, n);
    assert AgreeUpTo(r, q, n);
  }

  // ---- reading back what was printed ------------------------------------------------------------

  function PrintedParts(parts: seq<nat>): seq<string> {
    seq(|parts|, i requires 0 <= i < |parts| => Itoa(parts[i]))
  }

  function Printed(parts: seq<nat>): string { "v" + Join(PrintedParts(parts), ".") }

  lemma WrapShift(m: int)
    ensures exists k: int :: Wrap(m) == m + k * WORD
  {
    var k := -((m + HALF) / WORD);
    assert Wrap(m) == m + k * WORD;
  }

  lemma {:induction false} WrapAbsorbs(x: int, k: int)
    ensures Wrap(x + k * WORD) == Wrap(x)
    decreases if k < 0 then -k else k
  {
    if k > 0 {
      WrapAbsorbs(x, k - 1);
    } else if k < 0 {
      WrapAbsorbs(x, k + 1);
    }
  }

  /** Wrapping early or late gives the same word. */
  lemma WrapTimesTen(m: int, d: int)
    ensures Wrap(Wrap(m) * 10 + d) == Wrap(m * 10 + d)
  {
    WrapShift(m);
    var k :| Wrap(m) == m + k * WORD;
    assert Wrap(m) * 10 + d == (m * 10 + d) + (k * 10) * WORD;
    WrapAbsorbs(m * 10 + d, k * 10);
  }

  ghost predicate AllDigits(s: string) { forall i | 0 <= i < |s| :: IsDigit(s[i]) }

  /** Reading goes on after the digits, and stops at the first other character. */
  lemma {:induction false} ReadAppend(s: string, rest: string, n: int)
    requires AllDigits(s)
    ensures ReadDigits(s + rest, n) == ReadDigits(rest, ReadDigits(s, n))
  {
    if s == "" {
      assert s + rest == rest;
    } else {
      assert (s + rest)[1..] == s[1..] + rest;
      ReadAppend(s[1..], rest, Wrap(n * 10 + DigitValue(s[0])));
    }
  }

  /** A printed number is read back modulo 2^64: exactly, up to the largest Go int. */
  lemma {:induction false} ReadsBack(n: nat)
    ensures AllDigits(Itoa(n)) && ReadDigits(Itoa(n), 0) == Wrap(n)
  {
    hide Wrap;
    if n < 10 {
      OneDigit(n, 0);
    } else {
      ReadsBack(n / 10);
      ReadAppend(Itoa(n / 10), [Digit(n % 10)], 0);
      OneDigit(n % 10, Wrap(n / 10));
      WrapTimesTen(n / 10, n % 10);
      assert n == n / 10 * 10 + n % 10;
    }
  }

  lemma OneDigit(d: nat, n: int)
    requires d < 10
    ensures ReadDigits([Digit(d)], n) == Wrap(n * 10 + d)
  {
    hide Wrap;
    assert [Digit(d)][1..] == "";
  }

  lemma PrintedIsVisible(parts: seq<nat>)
    requires parts != []
    ensures var s := Join(PrintedParts(parts), "."); s != "" && !IsSpace(s[0]) && !IsSpace(s[|s| - 1])
    decreases |parts|
  {
    var words := PrintedParts(parts);
    ItoaIsToken(parts[0]);
    if |parts| > 1 {
      PrintedIsVisible(parts[1..]);
      assert words[1..] == PrintedParts(parts[1..]);
    }
  }

  lemma StripPrinted(s: string)
    requires s != "" && !IsSpace(s[0]) && !IsSpace(s[|s| - 1])
    ensures Stripped("v" + s) == s
  {
    hide TrimSpace;
    var t := "v" + s;
    assert t[|t| - 1] == s[|s| - 1] && t[0] == 'v' && t[1..] == s;
    TrimKeeps(t);
    TrimKeeps(s);
  }

  lemma PartsOfPrinted(parts: seq<nat>)
    requires parts != []
    ensures Split(Join(PrintedParts(parts), "."), '.') == PrintedParts(parts)
  {
    var words := PrintedParts(parts);
    forall i | 0 <= i < |words| ensures '.' !in words[i] { }
    SplitOfJoin(words, '.');
  }

  /** versionParts reads back the parts of a printed version, each one modulo 2^64. */
  lemma PartsOfVersion(parts: seq<nat>)
    requires parts != []
    ensures VersionParts(Printed(parts)) == seq(|parts|, i requires 0 <= i < |parts| => Wrap(parts[i]))
  {
    hide Stripped, Split, Wrap, Itoa, ReadDigits, Join;
    var s := Join(PrintedParts(parts), ".");
    PrintedIsVisible(parts);
    StripPrinted(s);
    PartsOfPrinted(parts);
    forall i | 0 <= i < |parts| { ReadsBack(parts[i]); }
  }

  /** The parts come back exactly when every one fits a Go int. */
  lemma PartsComeBackIff(parts: seq<nat>)
    requires parts != []
    ensures VersionParts(Printed(parts)) == parts <==> forall i | 0 <= i < |parts| :: parts[i] < HALF
  {
    hide VersionParts, Printed;
    PartsOfVersion(parts);
    forall i | 0 <= i < |parts| ensures Wrap(parts[i]) == parts[i] <==> parts[i] < HALF { FitsIff(parts[i]); }
    var wrapped := seq(|parts|, i requires 0 <= i < |parts| => Wrap(parts[i]));
    if wrapped == parts {
      forall i | 0 <= i < |parts| ensures parts[i] < HALF { assert wrapped[i] == parts[i]; }
    }
  }

  lemma FitsIff(n: nat)
    ensures Wrap(n) == n <==> n < HALF
  {
  }

  /** A suffix after the last number is not read: v1.2.3-rc1 counts as v1.2.3, so neither a release
      replaces its own candidate nor the other way round. */
  lemma SuffixIgnored(parts: seq<nat>, suffix: string)
    requires parts != [] && suffix != "" && !IsDigit(suffix[0]) && '.' !in suffix && !IsSpace(suffix[|suffix| - 1])
    ensures VersionParts(Printed(parts) + suffix) == VersionParts(Printed(parts))
    ensures !Newer(Printed(parts), Printed(parts) + suffix) && !Newer(Printed(parts) + suffix, Printed(parts))
  {
    hide Stripped, Split, Wrap, Itoa, ReadDigits, Join, Newer, Canonical;
    var s := Join(PrintedParts(parts), ".");
    PrintedIsVisible(parts);
    StripPrinted(s);
    var t := s + suffix;
    assert t[0] == s[0] && t[|t| - 1] == suffix[|suffix| - 1];
    StripPrinted(t);
    assert Printed(parts) + suffix == "v" + t;
    PartsOfPrinted(parts);
    SuffixedParts(parts, suffix);
    SuffixedLast(parts, suffix);
    NewerIsStrictWeakOrder(Printed(parts), Printed(parts) + suffix, "");
  }

  /** The suffix stays with the last part. */
  function Suffixed(words: seq<string>, suffix: string): seq<string>
    requires words != []
  {
    words[..|words| - 1] + [words[|words| - 1] + suffix]
  }

  lemma {:induction false} JoinSuffixed(words: seq<string>, suffix: string, sep: string)
    requires words != []
    ensures Join(Suffixed(words, suffix), sep) == Join(words, sep) + suffix
  {
    if |words| > 1 {
      JoinSuffixed(words[1..], suffix, sep);
      assert Suffixed(words, suffix)[1..] == Suffixed(words[1..], suffix);
      var rest := Join(words[1..], sep);
      assert words[0] + sep + (rest + suffix) == words[0] + sep + rest + suffix;
    }
  }

  lemma SuffixedParts(parts: seq<nat>, suffix: string)
    requires parts != [] && '.' !in suffix
    ensures Split(Join(PrintedParts(parts), ".") + suffix, '.') == Suffixed(PrintedParts(parts), suffix)
  {
    hide Split, Join;
    var words := Suffixed(PrintedParts(parts), suffix);
    JoinSuffixed(PrintedParts(parts), suffix, ".");
    forall i | 0 <= i < |words| ensures '.' !in words[i] { }
    SplitOfJoin(words, '.');
  }

  lemma SuffixedLast(parts: seq<nat>, suffix: string)
    requires parts != [] && suffix != "" && !IsDigit(suffix[0])
    ensures ReadAll(Suffixed(PrintedParts(parts), suffix)) == ReadAll(PrintedParts(parts))
  {
    hide Itoa;
    var n := |parts| - 1;
    ReadsBack(parts[n]);
    ReadAppend(Itoa(parts[n]), suffix, 0);
    forall i | 0 <= i <= n
      ensures ReadDigits(Suffixed(PrintedParts(parts), suffix)[i], 0) == ReadDigits(PrintedParts(parts)[i], 0) { }
  }

  /** What is read of a version name: the numbers between the dots of what is left without the blanks around it, one
      leading v, and the blanks behind that; nothing is left of an empty name. */
  lemma SpellingsMean(a: string, c: string, s: string, b: string)
    requires AllSpace(a) && AllSpace(b) && AllSpace(c)
    requires s != "" ==> !IsSpace(s[0]) && !IsSpace(s[|s| - 1])
    ensures var parts := if s == "" then [] else ReadAll(Split(s, '.'));
            && VersionParts(a + ("v" + c + s) + b) == parts
            && ((s == "" || s[0] != 'v') ==> VersionParts(a + s + b) == parts)
  {
    hide TrimSpace, Split, ReadAll;
    TrimmedIs(a, s, b);
    TrimmedIs("", s, "");
    assert "" + s + "" == s;
    TrimmedIs(c, s, "");
    assert c + s + "" == c + s;
    VNameTrimmed(a, c, s, b);
  }

  lemma VNameTrimmed(a: string, c: string, s: string, b: string)
    requires AllSpace(a) && AllSpace(b) && AllSpace(c)
    requires s != "" ==> !IsSpace(s[0]) && !IsSpace(s[|s| - 1])
    ensures Stripped(a + ("v" + c + s) + b) == s
  {
    hide TrimSpace;
    if s != "" {
      var t := "v" + c + s;
      TrimmedIs(a, t, b);
      assert t[1..] == c + s + "";
      TrimmedIs(c, s, "");
    } else {
      TrimmedIs(a, "v", c + b);
      assert a + ("v" + c + s) + b == a + "v" + (c + b);
      assert "v"[1..] == "" + "" + "";
      TrimmedIs("", "", "");
    }
  }

  /** A number in a command reads back as that number. */
  lemma NumberReads(n: int)
    ensures n >= 0 ==> AllDigits(ItoaInt(n)) && ReadDigits(ItoaInt(n), 0) == Wrap(n)
    ensures n < 0 ==> ItoaInt(n) == "-" + ItoaInt(-n)
  {
    if n >= 0 { ReadsBack(n); }
  }
}
