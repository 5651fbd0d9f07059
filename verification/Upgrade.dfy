/** selfupdate/selfupdate.go: when an upgrade order leads to an attempt. Several controllers of one
    process may act on orders at the same time. */
module Upgrade {
  import opened Text
  import opened Host
  import opened Version

  datatype Order = Order(version: string, url: string)

  /** Five minutes, in nanoseconds. */
  const RETRY_AFTER: int := 300_000_000_000

  /** The process-wide state. */
  datatype Globals = Globals(upgrading: bool, attemptVersion: string, lastAttempt: Option<int>)

  const IDLE := Globals(false, "", None)

  /** One call up to the moment it attempts the upgrade or gives up, with the instants at which it
      read the clock; or the end of a failed attempt (a successful one never returns). */
  datatype Call = Begin(order: Option<Order>, checked: int, stamped: int) | End

  /** The order names a newer version and a place to download it from. */
  ghost predicate Eligible(current: string, order: Option<Order>) {
    order.Some? && TrimSpace(order.value.version) != "" && Newer(order.value.version, current)
        && TrimSpace(order.value.url) != ""
  }

  /** The last attempt this version has to keep its distance from. */
  function LastFor(g: Globals, version: string): Option<int> {
    if version != g.attemptVersion then None else g.lastAttempt
  }

  ghost predicate Attempts(current: string, g: Globals, c: Call) {
    && c.Begin? && Eligible(current, c.order) && !g.upgrading
    && var last := LastFor(g, c.order.value.version);
       last.None? || c.checked - last.value >= RETRY_AFTER
  }

  ghost function After(current: string, g: Globals, c: Call): Globals {
    if c.End? then g.(upgrading := false)
    else if Attempts(current, g, c) then Globals(true, c.order.value.version, Some(c.stamped))
    else g
  }

  class Upgrader {
    var upgrading: bool
    var attemptVersion: string
    var lastAttempt: Option<int>

    constructor ()
      ensures State() == IDLE
    {
      upgrading, attemptVersion, lastAttempt := false, "", None;
    }

    ghost function State(): Globals
      reads this
    {
      Globals(upgrading, attemptVersion, lastAttempt)
    }

    /** Maybe, up to the attempt: `checked` and `stamped` are the two readings of the clock. */
    method Begin(order: Option<Order>, current: string, checked: int, stamped: int) returns (attempt: bool)
      modifies this
      ensures State() == After(current, old(State()), Call.Begin(order, checked, stamped))
      ensures attempt <==> Attempts(current, old(State()), Call.Begin(order, checked, stamped))
    {
      hide Newer, TrimSpace;
      if order.None? || TrimSpace(order.value.version) == "" { return false; }
      var newer := NewerVersion(order.value.version, current);
      if !newer { return false; }
      if TrimSpace(order.value.url) == "" { return false; }
      if upgrading { return false; }
      upgrading := true;
      if order.value.version != attemptVersion {
        attemptVersion := order.value.version;
        lastAttempt := None;
      }
      var tooSoon := lastAttempt.Some? && checked - lastAttempt.value < RETRY_AFTER;
      if !tooSoon {
        lastAttempt := Some(stamped);
      }
      if tooSoon {
        upgrading := false;
        return false;
      }
      return true;
    }

    /** Maybe returns after a failed attempt. */
    method Finish()
      modifies this
      ensures State() == After("", old(State()), End)
    {
      upgrading := false;
    }
  }

  // ---- runs -------------------------------------------------------------------------------------

  ghost function AfterAll(current: string, calls: seq<Call>): Globals {
    if calls == [] then IDLE else After(current, AfterAll(current, calls[..|calls| - 1]), calls[|calls| - 1])
  }

  /** Call i of the run leads to an attempt. */
  ghost predicate AttemptAt(current: string, calls: seq<Call>, i: int) {
    0 <= i < |calls| && Attempts(current, AfterAll(current, calls[..i]), calls[i])
  }

  /** The clock does not go back. */
  ghost predicate WellTimed(calls: seq<Call>) {
    && (forall i | 0 <= i < |calls| && calls[i].Begin? :: calls[i].checked <= calls[i].stamped)
    && forall i, j | 0 <= i < j < |calls| && calls[i].Begin? && calls[j].Begin? :: calls[i].stamped <= calls[j].checked
  }

  ghost predicate NoAttemptBetween(current: string, calls: seq<Call>, i: int, j: int) {
    forall k | i < k < j :: !AttemptAt(current, calls, k)
  }

  lemma PrefixAttempts(current: string, calls: seq<Call>, n: nat, i: int)
    requires i < n <= |calls|
    ensures AttemptAt(current, calls[..n], i) <==> AttemptAt(current, calls, i)
  {
    hide Attempts, AfterAll;
    if 0 <= i { assert calls[..n][..i] == calls[..i]; }
  }

  lemma AttemptIsEligible(current: string, calls: seq<Call>, i: int)
    requires AttemptAt(current, calls, i)
    ensures 0 <= i < |calls| && calls[i].Begin? && Eligible(current, calls[i].order)
  {
    hide Eligible;
  }

  /** One more call, seen by the state and by the list of attempts. */
  lemma OneMoreCall(current: string, calls: seq<Call>, c: Call)
    ensures var all := calls + [c]; var g := AfterAll(current, calls);
            && AfterAll(current, all) == After(current, g, c)
            && (AttemptAt(current, all, |calls|) <==> Attempts(current, g, c))
            && AttemptTimes(current, all) == AttemptTimes(current, calls) + if Attempts(current, g, c)
                then [c.stamped] else []
  {
    hide Attempts, After;
    assert (calls + [c])[..|calls|] == calls;
  }

  /** The state remembers the latest attempt of the run, whatever happened since. */
  lemma {:induction false} RemembersLast(current: string, calls: seq<Call>, i: int)
    requires AttemptAt(current, calls, i) && NoAttemptBetween(current, calls, i, |calls|)
    ensures var g := AfterAll(current, calls);
            g.attemptVersion == calls[i].order.value.version && g.lastAttempt == Some(calls[i].stamped)
  {
    hide Eligible, LastFor;
    var n := |calls| - 1;
    assert calls[..n + 1] == calls;
    if i < n {
      PrefixAttempts(current, calls, n, i);
      forall k | i < k < n ensures !AttemptAt(current, calls[..n], k) {
        PrefixAttempts(current, calls, n, k);
        assert !AttemptAt(current, calls, k);
      }
      RemembersLast(current, calls[..n], i);
      assert !AttemptAt(current, calls, n);
    }
  }

  /** A free, eligible call after an attempt leads to the next attempt exactly when it orders another
      version or the cooldown of the latest attempt is over. */
  lemma NextAttemptIff(current: string, calls: seq<Call>, i: int, c: Call)
    requires AttemptAt(current, calls, i) && NoAttemptBetween(current, calls, i, |calls|)
    requires !AfterAll(current, calls).upgrading && c.Begin? && Eligible(current, c.order)
    ensures AttemptAt(current, calls + [c], |calls|) <==>
            c.order.value.version != calls[i].order.value.version || c.checked - calls[i].stamped >= RETRY_AFTER
  {
    hide Eligible;
    RemembersLast(current, calls, i);
    assert (calls + [c])[..|calls|] == calls;
  }

  /** Two attempts in a row for the same version are at least RETRY_AFTER apart. */
  lemma SpacedInARow(current: string, calls: seq<Call>, i: int, j: int)
    requires WellTimed(calls) && i < j && AttemptAt(current, calls, i) && AttemptAt(current, calls, j)
    requires NoAttemptBetween(current, calls, i, j)
    requires calls[i].order.value.version == calls[j].order.value.version
    ensures calls[j].stamped - calls[i].stamped >= RETRY_AFTER
  {
    hide Eligible;
    PrefixAttempts(current, calls, j, i);
    forall k | i < k < j ensures !AttemptAt(current, calls[..j], k) {
      PrefixAttempts(current, calls, j, k);
      assert !AttemptAt(current, calls, k);
    }
    RemembersLast(current, calls[..j], i);
  }

  /** Every attempt of the run orders this version. */
  ghost predicate OnlyAttempts(current: string, calls: seq<Call>, version: string) {
    forall k | AttemptAt(current, calls, k) :: calls[k].order.value.version == version
  }

  /** The instants at which the attempts of a run started. */
  ghost function AttemptTimes(current: string, calls: seq<Call>): seq<int> {
    if calls == [] then [] else
      var n := |calls| - 1;
      AttemptTimes(current, calls[..n]) + if AttemptAt(current, calls, n) then [calls[n].stamped] else []
  }

  /** The last of these instants belongs to the latest attempt. */
  lemma {:induction false} LatestTime(current: string, calls: seq<Call>) returns (i: int)
    requires AttemptTimes(current, calls) != []
    ensures AttemptAt(current, calls, i) && NoAttemptBetween(current, calls, i, |calls|)
    ensures var ts := AttemptTimes(current, calls); ts[|ts| - 1] == calls[i].stamped
  {
    hide Attempts;
    var n := |calls| - 1;
    if AttemptAt(current, calls, n) {
      i := n;
    } else {
      i := LatestTime(current, calls[..n]);
      PrefixAttempts(current, calls, n, i);
      forall k | i < k < |calls| ensures !AttemptAt(current, calls, k) {
        if k < n { PrefixAttempts(current, calls, n, k); assert !AttemptAt(current, calls[..n], k); }
      }
    }
  }

  /** Each instant is RETRY_AFTER or more after the one before it. */
  ghost predicate Spaced(ts: seq<int>) {
    forall i | 0 < i < |ts| :: ts[i] - ts[i - 1] >= RETRY_AFTER
  }

  lemma OnlyInPrefix(current: string, calls: seq<Call>, n: nat, version: string)
    requires n <= |calls| && OnlyAttempts(current, calls, version)
    ensures OnlyAttempts(current, calls[..n], version)
  {
    hide AfterAll, Newer, TrimSpace;
    forall k | AttemptAt(current, calls[..n], k) ensures calls[..n][k].order.value.version == version {
      PrefixAttempts(current, calls, n, k);
      assert AttemptAt(current, calls, k);
    }
  }

  lemma NextIsSpaced(current: string, calls: seq<Call>, version: string)
    requires WellTimed(calls) && OnlyAttempts(current, calls, version)
    requires calls != [] && AttemptAt(current, calls, |calls| - 1)
    requires AttemptTimes(current, calls[..|calls| - 1]) != []
    ensures var ts := AttemptTimes(current,
                                   calls[..|calls| - 1]); calls[|calls| - 1].stamped - ts[|ts| - 1] >= RETRY_AFTER
  {
    hide Attempts, AfterAll, AttemptTimes, AttemptAt;
    var n := |calls| - 1;
    var init := calls[..n];
    var i := LatestTime(current, init);
    AttemptIsEligible(current, init, i);
    PrefixAttempts(current, calls, n, i);
    forall k | i < k < n ensures !AttemptAt(current, calls, k) {
      PrefixAttempts(current, calls, n, k);
      assert !AttemptAt(current, init, k);
    }
    AttemptIsEligible(current, calls, n);
    SpacedInARow(current, calls, i, n);
  }

  lemma {:induction false} AttemptsAreSpaced(current: string, calls: seq<Call>, version: string)
    requires WellTimed(calls) && OnlyAttempts(current, calls, version)
    ensures Spaced(AttemptTimes(current, calls))
  {
    hide AttemptAt, OnlyAttempts;
    if calls != [] {
      var n := |calls| - 1;
      OnlyInPrefix(current, calls, n, version);
      AttemptsAreSpaced(current, calls[..n], version);
      if AttemptAt(current, calls, n) && AttemptTimes(current, calls[..n]) != [] {
        NextIsSpaced(current, calls, version);
      }
    }
  }

  /** How many of the instants lie in the window. */
  function CountIn(ts: seq<int>, lo: int, hi: int): nat {
    if ts == [] then 0 else CountIn(ts[..|ts| - 1], lo, hi) + if lo <= ts[|ts| - 1] <= hi then 1 else 0
  }

  lemma {:induction false} CountUpTo(ts: seq<int>, lo: int, hi: int)
    requires Spaced(ts) && ts != [] && lo <= ts[|ts| - 1] <= hi
    ensures (CountIn(ts, lo, hi) - 1) * RETRY_AFTER <= ts[|ts| - 1] - lo
  {
    var init := ts[..|ts| - 1];
    if init != [] && lo <= init[|init| - 1] {
      CountUpTo(init, lo, hi);
    } else {
      NoneBelow(init, lo, hi);
    }
  }

  lemma {:induction false} NoneBelow(ts: seq<int>, lo: int, hi: int)
    requires Spaced(ts) && (ts != [] ==> ts[|ts| - 1] < lo)
    ensures CountIn(ts, lo, hi) == 0
  {
    if ts != [] { NoneBelow(ts[..|ts| - 1], lo, hi); }
  }

  lemma {:induction false} WindowCount(ts: seq<int>, lo: int, hi: int)
    requires Spaced(ts) && lo <= hi
    ensures CountIn(ts, lo, hi) <= (hi - lo) / RETRY_AFTER + 1
  {
    if ts != [] {
      var last := ts[|ts| - 1];
      if last > hi {
        WindowCount(ts[..|ts| - 1], lo, hi);
      } else if last < lo {
        NoneBelow(ts, lo, hi);
      } else {
        CountUpTo(ts, lo, hi);
      }
    }
  }

  /** While all attempts are for one version, a window of length T holds at most T / RETRY_AFTER + 1. */
  lemma WindowBound(current: string, calls: seq<Call>, version: string, lo: int, hi: int)
    requires WellTimed(calls) && OnlyAttempts(current, calls, version) && lo <= hi
    ensures CountIn(AttemptTimes(current, calls), lo, hi) <= (hi - lo) / RETRY_AFTER + 1
  {
    AttemptsAreSpaced(current, calls, version);
    WindowCount(AttemptTimes(current, calls), lo, hi);
  }

  /** Calls of different controllers never attempt at once: between two attempts the first one ends. */
  lemma SingleFlight(current: string, calls: seq<Call>, i: int, j: int)
    requires i < j && AttemptAt(current, calls, i) && AttemptAt(current, calls, j)
    ensures exists k :: i < k < j && calls[k].End?
  {
    if forall k | i < k < j :: !calls[k].End? {
      StaysUpgrading(current, calls, i, j);
    }
  }

  lemma {:induction false} StaysUpgrading(current: string, calls: seq<Call>, i: int, n: int)
    requires i < n <= |calls| && AttemptAt(current, calls, i) && forall k | i < k < n :: !calls[k].End?
    ensures AfterAll(current, calls[..n]).upgrading
  {
    hide Eligible, LastFor;
    assert calls[..n][..n - 1] == calls[..n - 1];
    if i < n - 1 {
      StaysUpgrading(current, calls, i, n - 1);
    }
  }

  // ---- the next attempt comes in time -----------------------------------------------------------

  /** Free, eligible calls for one version, at most h apart, the first at most h after the instant. */
  ghost predicate Steady(current: string, calls: seq<Call>, version: string, since: int, h: int) {
    &&
        (forall k | 0 <= k < |calls| :: calls[k].Begin? && Eligible(current, calls[k].order)
          && calls[k].order.value.version == version)
    && (calls != [] ==> calls[0].checked - since <= h)
    && forall k | 0 < k < |calls| :: calls[k].checked - calls[k - 1].checked <= h
  }

  /** Calls inside the cooldown change nothing at all, so they do not push the next attempt away. */
  lemma {:induction false} SkippedChangeNothing(current: string, calls: seq<Call>, more: seq<Call>, i: int)
    requires AttemptAt(current, calls, i) && NoAttemptBetween(current, calls, i, |calls|)
    requires forall k | 0 <= k < |more| ::
      more[k].Begin? && more[k].checked - calls[i].stamped < RETRY_AFTER
      && (Eligible(current, more[k].order) ==> more[k].order.value.version == calls[i].order.value.version)
    ensures AfterAll(current, calls + more) == AfterAll(current, calls)
    ensures NoAttemptBetween(current, calls + more, i, |calls + more|)
  {
    hide Eligible;
    if more == [] {
      assert calls + more == calls;
    } else {
      var n := |more| - 1;
      var init := calls + more[..n];
      SkippedChangeNothing(current, calls, more[..n], i);
      var all := calls + more;
      assert all[..|init|] == init && all[|init|] == more[n];
      RemembersLast(current, calls, i);
      forall k | i < k < |all| ensures !AttemptAt(current, all, k) {
        if k < |init| { PrefixAttempts(current, all, |init|, k); assert !AttemptAt(current, init, k); }
      }
    }
  }

  /** While the panel keeps ordering the version at least every h, the next attempt starts no later
      than RETRY_AFTER + h after the previous one, and not before the cooldown is over. */
  lemma NextAttemptInTime(current: string, calls: seq<Call>, more: seq<Call>, i: int, h: int) returns (k: int)
    requires h >= 0 && AttemptAt(current, calls, i) && NoAttemptBetween(current, calls, i, |calls|)
    requires !AfterAll(current, calls).upgrading
    requires Steady(current, more, calls[i].order.value.version, calls[i].stamped, h)
    requires more != [] && more[|more| - 1].checked >= calls[i].stamped + RETRY_AFTER
    ensures 0 <= k < |more| && AttemptAt(current, calls + more, |calls| + k)
    ensures NoAttemptBetween(current, calls + more, i, |calls| + k)
    ensures calls[i].stamped + RETRY_AFTER <= more[k].checked <= calls[i].stamped + RETRY_AFTER + h
  {
    hide Eligible, Attempts, AfterAll;
    AttemptIsEligible(current, calls, i);
    k := 0;
    while more[k].checked < calls[i].stamped + RETRY_AFTER
      invariant 0 <= k < |more|
      invariant forall j | 0 <= j < k :: more[j].checked < calls[i].stamped + RETRY_AFTER
      decreases |more| - k
    {
      k := k + 1;
    }
    assert k > 0 ==> more[k].checked - more[k - 1].checked <= h;
    var before := calls + more[..k];
    SkippedChangeNothing(current, calls, more[..k], i);
    var all := calls + more;
    assert before + [more[k]] == all[..|before| + 1] && all[..|before|] == before;
    PrefixAttempts(current, before, |calls|, i);
    assert before[..|calls|] == calls;
    NextAttemptIff(current, before, i, more[k]);
    PrefixAttempts(current, all, |before| + 1, |before|);
    forall j | i < j < |before| ensures !AttemptAt(current, all, j) {
      PrefixAttempts(current, all, |before|, j);
      assert !AttemptAt(current, before, j);
    }
  }

  /** Two orders in turn defeat the cooldown: whenever a and b are different names of newer versions,
      any number of attempts may start at one and the same instant. */
  function Flips(a: Order, b: Order, at: int, n: nat): seq<Call> {
    if n == 0 then [] else Flips(a, b, at, n - 1) + [Begin(Some(if n % 2 == 0 then b else a), at, at), End]
  }

  lemma FlippingDefeatsCooldown(current: string, a: Order, b: Order, at: int, n: nat)
    requires Eligible(current, Some(a)) && Eligible(current, Some(b)) && a.version != b.version
    ensures WellTimed(Flips(a, b, at, n)) && |AttemptTimes(current, Flips(a, b, at, n))| == n
    ensures CountIn(AttemptTimes(current, Flips(a, b, at, n)), at, at) == n
  {
    FlipStep(current, a, b, at, n);
  }

  lemma {:induction false} FlipStep(current: string, a: Order, b: Order, at: int, n: nat)
    requires Eligible(current, Some(a)) && Eligible(current, Some(b)) && a.version != b.version
    ensures var run := Flips(a, b, at, n); var ts := AttemptTimes(current, run);
            && WellTimed(run) && |ts| == n && CountIn(ts, at, at) == n
            && (forall k | 0 <= k < |run| && run[k].Begin? :: run[k].checked == run[k].stamped == at)
            && var g := AfterAll(current, run);
               !g.upgrading && (n > 0 ==> g.attemptVersion == if n % 2 == 0 then b.version else a.version)
               && (n == 0 ==> g == IDLE)
  {
    hide Eligible, AttemptTimes, AfterAll, AttemptAt;
    if n == 0 {
      NothingAttempted(current);
    } else {
      FlipStep(current, a, b, at, n - 1);
      var before, run := Flips(a, b, at, n - 1), Flips(a, b, at, n);
      var c := Begin(Some(if n % 2 == 0 then b else a), at, at);
      OneMoreCall(current, before, c);
      OneMoreCall(current, before + [c], End);
      assert run == before + [c] + [End];
      var ts := AttemptTimes(current, run);
      assert ts == AttemptTimes(current, before) + [at];
      assert ts[..|ts| - 1] == AttemptTimes(current, before);
    }
  }

  lemma NothingAttempted(current: string)
    ensures AttemptTimes(current, []) == [] && AfterAll(current, []) == IDLE
  {
  }

  /** What leads to an attempt, over any run: the order names a newer version and a place to download it from, none is
      under way, and five minutes are over since the latest attempt, unless that was for another version. */
  lemma AttemptMeans(current: string, calls: seq<Call>, c: Call)
    ensures AttemptAt(current, calls + [c], |calls|) <==>
              && c.Begin? && c.order.Some? && HasWord(c.order.value.version) && HasWord(c.order.value.url)
              && Above(VersionParts(c.order.value.version), VersionParts(current))
              && !AfterAll(current, calls).upgrading
              && forall i | AttemptAt(current, calls, i) && NoAttemptBetween(current, calls, i, |calls|) ::
                   c.order.value.version != calls[i].order.value.version
                   || c.checked - calls[i].stamped >= 300_000_000_000
  {
    hide TrimSpace, HasWord, Above, VersionParts, AfterAll, NoAttemptBetween;
    assert (calls + [c])[..|calls|] == calls;
    if c.Begin? && c.order.Some? {
      TrimmedIff(c.order.value.version);
      TrimmedIff(c.order.value.url);
      var i := LatestAttempt(current, calls);
      if i >= 0 {
        RemembersLast(current, calls, i);
        forall j | AttemptAt(current, calls, j) && NoAttemptBetween(current, calls, j, |calls|) ensures j == i {
          OneLatest(current, calls, i, j);
        }
      } else {
        NeverAttempted(current, calls);
      }
    }
  }

  lemma LatestAttempt(current: string, calls: seq<Call>) returns (i: int)
    ensures i >= 0 ==> AttemptAt(current, calls, i) && NoAttemptBetween(current, calls, i, |calls|)
    ensures i < 0 ==> forall j :: !AttemptAt(current, calls, j)
  {
    hide AttemptAt;
    i := |calls| - 1;
    while i >= 0 && !AttemptAt(current, calls, i)
      invariant -1 <= i < |calls| && forall j | i < j < |calls| :: !AttemptAt(current, calls, j)
    {
      i := i - 1;
    }
    forall j | j < 0 || j >= |calls| ensures !AttemptAt(current, calls, j) { OutOfRange(current, calls, j); }
  }

  lemma OutOfRange(current: string, calls: seq<Call>, j: int)
    requires j < 0 || j >= |calls|
    ensures !AttemptAt(current, calls, j)
  {
  }

  lemma OneLatest(current: string, calls: seq<Call>, i: int, j: int)
    requires AttemptAt(current, calls, i) && NoAttemptBetween(current, calls, i, |calls|)
    requires AttemptAt(current, calls, j) && NoAttemptBetween(current, calls, j, |calls|)
    ensures i == j
  {
    hide Attempts, AfterAll;
  }

  lemma {:induction false} NeverAttempted(current: string, calls: seq<Call>)
    requires forall j :: !AttemptAt(current, calls, j)
    ensures AfterAll(current, calls).lastAttempt == None
  {
    hide Eligible, LastFor;
    if calls != [] {
      var n := |calls| - 1;
      forall j | j < n ensures !AttemptAt(current, calls[..n], j) {
        PrefixAttempts(current, calls, n, j);
        assert !AttemptAt(current, calls, j);
      }
      forall j | j >= n ensures !AttemptAt(current, calls[..n], j) { OutOfRange(current, calls[..n], j); }
      NeverAttempted(current, calls[..n]);
      assert !AttemptAt(current, calls, n);
    }
  }
}
