/** How many copies of one firewall rule or `ip` entry the host holds, and what a reconciler does to
    that number.

    Every diff engine of the agent treats the copies of one key the same way: it deletes some number
    of them (`drops`) and, when the new configuration lists the key, makes sure one is there
    (`wants`). A whole pass over many interfaces is then a sequence of touches of that key. */
module Counts {

  function Max(a: nat, b: nat): nat { if a < b then b else a }

  /** a - b, stopping at zero: deleting a missing rule fails and changes nothing. */
  function Monus(a: nat, b: nat): nat { if a < b then 0 else a - b }

  datatype Touch = Touch(drops: nat, wants: bool)

  const NOTHING := Touch(0, false)

  function Step(c: nat, t: Touch): nat {
    var left := Monus(c, t.drops);
    if t.wants then Max(1, left) else left
  }

  /** The count after all touches, the first one first. */
  function Fold(c: nat, ts: seq<Touch>): nat {
    if ts == [] then c else Step(Fold(c, ts[..|ts| - 1]), ts[|ts| - 1])
  }

  function TotalDrops(ts: seq<Touch>): nat {
    if ts == [] then 0 else TotalDrops(ts[..|ts| - 1]) + ts[|ts| - 1].drops
  }

  /** A touch that cannot make a present key disappear. */
  predicate Harmless(t: Touch) { t.wants || t.drops == 0 }

  /** Touch i wants the key and no later touch can take it away. */
  ghost predicate LastSay(ts: seq<Touch>, i: int) {
    0 <= i < |ts| && ts[i].wants && forall j | i < j < |ts| :: Harmless(ts[j])
  }

  ghost predicate AllHarmless(ts: seq<Touch>) {
    forall j | 0 <= j < |ts| :: Harmless(ts[j])
  }

  /** The last touch with any effect is one that wants the key. */
  ghost predicate EndsWanted(c: nat, ts: seq<Touch>) {
    (exists i :: LastSay(ts, i)) || (c == 1 && AllHarmless(ts))
  }

  lemma FoldPush(c: nat, ts: seq<Touch>, t: Touch)
    ensures Fold(c, ts + [t]) == Step(Fold(c, ts), t)
  {
    assert (ts + [t])[..|ts|] == ts;
  }

  lemma {:induction false} FoldConcat(c: nat, a: seq<Touch>, b: seq<Touch>)
    ensures Fold(c, a + b) == Fold(Fold(c, a), b)
  {
    if b == [] {
      assert a + b == a;
    } else {
      var init := b[..|b| - 1];
      FoldConcat(c, a, init);
      assert a + b == (a + init) + [b[|b| - 1]];
      FoldPush(c, a + init, b[|b| - 1]);
    }
  }

  lemma {:induction false} FoldAtMostOne(c: nat, ts: seq<Touch>)
    requires c <= 1
    ensures Fold(c, ts) <= 1
  {
    if ts != [] {
      FoldAtMostOne(c, ts[..|ts| - 1]);
    }
  }

  lemma {:induction false} FoldUnwanted(c: nat, ts: seq<Touch>)
    requires forall i | 0 <= i < |ts| :: !ts[i].wants
    ensures Fold(c, ts) == Monus(c, TotalDrops(ts))
  {
    if ts != [] {
      FoldUnwanted(c, ts[..|ts| - 1]);
    }
  }

  lemma {:induction false} DropsAtLeast(ts: seq<Touch>, i: nat)
    requires i < |ts|
    ensures TotalDrops(ts) >= ts[i].drops
  {
    if i < |ts| - 1 {
      DropsAtLeast(ts[..|ts| - 1], i);
    }
  }

  lemma {:induction false} FoldUntouched(c: nat, ts: seq<Touch>)
    requires forall i | 0 <= i < |ts| :: ts[i] == NOTHING
    ensures Fold(c, ts) == c
  {
    if ts != [] {
      FoldUntouched(c, ts[..|ts| - 1]);
    }
  }

  /** A touch that does nothing does not change who had the last say. */
  lemma IdleTouch(c: nat, ts: seq<Touch>, t: Touch)
    requires !t.wants && t.drops == 0
    ensures EndsWanted(c, ts + [t]) <==> EndsWanted(c, ts)
  {
    assert forall j | 0 <= j < |ts| :: (ts + [t])[j] == ts[j];
    assert forall i :: LastSay(ts + [t], i) <==> LastSay(ts, i);
  }

  /** Starting from at most one copy, the key is present at the end exactly when the last touch with
      an effect wants it. */
  lemma {:induction false} FoldPresence(c: nat, ts: seq<Touch>)
    requires c <= 1
    ensures Fold(c, ts) == 1 <==> EndsWanted(c, ts)
  {
    FoldAtMostOne(c, ts);
    if ts != [] {
      var n := |ts| - 1;
      var init, last := ts[..n], ts[n];
      assert ts == init + [last];
      FoldPresence(c, init);
      FoldAtMostOne(c, init);
      if last.wants {
        assert LastSay(ts, n);
      } else if last.drops == 0 {
        IdleTouch(c, init, last);
      } else {
        assert !Harmless(ts[n]);
      }
    }
  }

  /** A key nobody wants is gone after a pass that deletes it somewhere. */
  lemma FoldDropped(c: nat, ts: seq<Touch>, t: Touch)
    requires c <= 1 && t in ts && t.drops > 0
    requires forall u | u in ts :: !u.wants
    ensures Fold(c, ts) == 0
  {
    var i :| 0 <= i < |ts| && ts[i] == t;
    FoldUnwanted(c, ts);
    DropsAtLeast(ts, i);
  }

  lemma FoldKept(c: nat, ts: seq<Touch>)
    requires c <= 1 && forall u | u in ts :: Harmless(u)
    ensures Fold(c, ts) == 1 <==> c == 1 || exists u | u in ts :: u.wants
  {
    FoldPresence(c, ts);
    if u :| u in ts && u.wants {
      var i :| 0 <= i < |ts| && ts[i] == u;
      assert LastSay(ts, i);
    }
  }

  lemma MonusTwice<T>(m: multiset<T>, a: seq<T>, b: seq<T>)
    ensures m - multiset(a) - multiset(b) == m - multiset(a + b)
  {
  }
}
