/** node/controller.go: the protocol between the agent and the panel, over runs in which the panel is
    edited at any moment, calls fail and engines fail. */
module Protocol {
  import opened Host
  import opened Types
  import opened SyncEffects
  import opened Controller

  /** All snapshots the panel ever has, oldest first: every edit adds one. */
  type Panel = seq<SyncResponse>

  /** One heartbeat: the snapshot the panel had when it answered and the one it had when it served the
      fetch (None when that call failed), and the outcome of an engine other than the kernel one. */
  datatype Tick = Tick(force: bool, seen: Option<nat>, got: Option<nat>, healthy: bool)

  function Reported(p: Panel, t: Tick): Option<nat> {
    if t.seen.Some? && t.seen.value < |p| then Some(p[t.seen.value].revision) else None
  }

  function Served(p: Panel, t: Tick): Option<SyncResponse> {
    if t.got.Some? && t.got.value < |p| then Some(p[t.got.value]) else None
  }

  /** The memory after a run of heartbeats. */
  function MindAfter(p: Panel, ticks: seq<Tick>): Mind {
    if ticks == [] then BLANK else
      var t := ticks[|ticks| - 1];
      Beat(MindAfter(p, ticks[..|ticks| - 1]), t.force, Reported(p, t), Served(p, t), t.healthy)
  }

  /** Tick i asks for the full state. */
  predicate AsksAt(p: Panel, ticks: seq<Tick>, i: int) {
    0 <= i < |ticks| && Reported(p, ticks[i]).Some? && Due(MindAfter(p, ticks[..i]), ticks[i].force,
                                                           Reported(p, ticks[i]).value)
  }

  /** Tick i takes in a snapshot. */
  predicate TakesAt(p: Panel, ticks: seq<Tick>, i: int) {
    AsksAt(p, ticks, i) && Served(p, ticks[i]).Some?
  }

  /** Tick i also records it. */
  predicate RecordsAt(p: Panel, ticks: seq<Tick>, i: int) {
    TakesAt(p, ticks, i) && EngineSucceeds(Served(p, ticks[i]).value, ticks[i].healthy)
  }

  /** Snapshots are seen in the order in which the panel had them. */
  ghost predicate InOrder(p: Panel, ticks: seq<Tick>) {
    && (forall i | 0 <= i < |ticks| && ticks[i].seen.Some? :: ticks[i].seen.value < |p|)
    && (forall i | 0 <= i < |ticks| && ticks[i].got.Some? :: ticks[i].got.value < |p|)
    && (forall i | 0 <= i < |ticks| && ticks[i].seen.Some? && ticks[i].got.Some? ::
        ticks[i].seen.value <= ticks[i].got.value)
    && (forall i, j | 0 <= i < j < |ticks| && ticks[i].seen.Some? && ticks[j].seen.Some? ::
        ticks[i].seen.value <= ticks[j].seen.value)
    && (forall i, j | 0 <= i < j < |ticks| && ticks[i].got.Some? && ticks[j].seen.Some? ::
        ticks[i].got.value <= ticks[j].seen.value)
  }

  /** The panel never goes back to a smaller revision. */
  ghost predicate NeverBack(p: Panel) {
    forall i, j | 0 <= i < j < |p| :: p[i].revision <= p[j].revision
  }

  /** A revision names one snapshot: every edit changes it. */
  ghost predicate RevisionNames(p: Panel) {
    forall i, j | 0 <= i < |p| && 0 <= j < |p| && p[i].revision == p[j].revision :: p[i] == p[j]
  }

  lemma Prefix(p: Panel, ticks: seq<Tick>, n: nat, i: int)
    requires i < n <= |ticks|
    ensures AsksAt(p, ticks[..n], i) <==> AsksAt(p, ticks, i)
    ensures TakesAt(p, ticks[..n], i) <==> TakesAt(p, ticks, i)
    ensures RecordsAt(p, ticks[..n], i) <==> RecordsAt(p, ticks, i)
  {
    hide MindAfter, Due, Reported, Served;
    if 0 <= i { assert ticks[..n][..i] == ticks[..i]; }
  }

  /** The memory after one more tick. */
  lemma OneMore(p: Panel, ticks: seq<Tick>)
    requires ticks != []
    ensures var n := |ticks| - 1; var b, b' := MindAfter(p, ticks[..n]), MindAfter(p, ticks);
            && (RecordsAt(p, ticks, n) ==> var s := Served(p, ticks[n]).value;
                  b'.known && b'.revision == s.revision && b'.desired == Interfaces(s.interfaces))
            && (!RecordsAt(p, ticks, n) ==> b'.known == b.known && b'.revision == b.revision && b'.desired == b.desired)
            && (TakesAt(p, ticks, n) ==> var s := Served(p, ticks[n]).value;
                  b'.vxlan == OverlayConfigs(s.interfaces) && b'.extras
                      == ExtrasAfter(b.extras, Interfaces(s.interfaces)))
            && (!TakesAt(p, ticks, n) ==> b' == b)
  {
    hide OverlayConfigs, Interfaces, ExtrasAfter;
  }

  // ---- what is recorded -------------------------------------------------------------------------

  /** The latest recording tick. */
  ghost predicate LatestRecord(p: Panel, ticks: seq<Tick>, i: int) {
    RecordsAt(p, ticks, i) && forall k | i < k < |ticks| :: !RecordsAt(p, ticks, k)
  }

  ghost predicate NothingRecorded(p: Panel, ticks: seq<Tick>) {
    forall k | 0 <= k < |ticks| :: !RecordsAt(p, ticks, k)
  }

  lemma LatestPush(p: Panel, ticks: seq<Tick>, i: int)
    requires ticks != [] && !RecordsAt(p, ticks, |ticks| - 1)
    requires LatestRecord(p, ticks[..|ticks| - 1], i)
    ensures LatestRecord(p, ticks, i)
  {
    hide RecordsAt;
    var n := |ticks| - 1;
    assert i < n by { RecordBounds(p, ticks[..n], i); }
    Prefix(p, ticks, n, i);
    forall k | i < k < |ticks| ensures !RecordsAt(p, ticks, k) {
      if k < n { Prefix(p, ticks, n, k); assert !RecordsAt(p, ticks[..n], k); }
    }
  }

  lemma RecordBounds(p: Panel, ticks: seq<Tick>, i: int)
    requires RecordsAt(p, ticks, i)
    ensures 0 <= i < |ticks| && ticks[i].got.Some? && ticks[i].seen.Some? && ticks[i].got.value < |p|
            && ticks[i].seen.value < |p|
    ensures Served(p, ticks[i]) == Some(p[ticks[i].got.value])
  {
  }

  /** What is recorded is the snapshot of tick i, the latest successful sync. */
  ghost predicate RecordedFrom(p: Panel, ticks: seq<Tick>, i: int) {
    && LatestRecord(p, ticks, i)
    && MindAfter(p, ticks).revision == Served(p, ticks[i]).value.revision
    && MindAfter(p, ticks).desired == Interfaces(Served(p, ticks[i]).value.interfaces)
  }

  lemma RecordedBounds(p: Panel, ticks: seq<Tick>, i: int)
    requires RecordedFrom(p, ticks, i)
    ensures 0 <= i < |ticks| && ticks[i].got.Some? && ticks[i].seen.Some? && ticks[i].got.value < |p|
            && ticks[i].seen.value < |p|
    ensures MindAfter(p, ticks).revision == p[ticks[i].got.value].revision
    ensures MindAfter(p, ticks).desired == Interfaces(p[ticks[i].got.value].interfaces)
    ensures RecordsAt(p, ticks, i) && forall k | i < k < |ticks| :: !RecordsAt(p, ticks, k)
  {
    hide Interfaces, MindAfter, RecordsAt;
    RecordBounds(p, ticks, i);
  }

  lemma RecordedPush(p: Panel, ticks: seq<Tick>, i: int)
    requires ticks != [] && !RecordsAt(p, ticks, |ticks| - 1) && RecordedFrom(p, ticks[..|ticks| - 1], i)
    ensures RecordedFrom(p, ticks, i)
  {
    hide Interfaces, MindAfter, RecordsAt, Served;
    RecordBounds(p, ticks[..|ticks| - 1], i);
    OneMore(p, ticks);
    LatestPush(p, ticks, i);
  }

  /** The recorded revision and state always are those of one snapshot the panel really had: the one
      the latest successful sync fetched. Before the first such sync nothing is recorded. */
  lemma {:induction false} RecordIsSnapshot(p: Panel, ticks: seq<Tick>)
    ensures var b := MindAfter(p, ticks);
            if b.known then exists i :: RecordedFrom(p, ticks, i) else NothingRecorded(p, ticks) && b.desired == []
  {
    hide Interfaces, RecordsAt, TakesAt, Beat, Served, RecordedFrom;
    if ticks != [] {
      var n := |ticks| - 1;
      RecordIsSnapshot(p, ticks[..n]);
      OneMore(p, ticks);
      if RecordsAt(p, ticks, n) {
        RecordedNow(p, ticks);
      } else if i :| RecordedFrom(p, ticks[..n], i) {
        RecordedPush(p, ticks, i);
        RecordedBounds(p, ticks[..n], i);
        RecordedIsKnown(p, ticks[..n], i);
      } else {
        forall k | 0 <= k < |ticks| ensures !RecordsAt(p, ticks, k) {
          if k < n { Prefix(p, ticks, n, k); assert !RecordsAt(p, ticks[..n], k); }
        }
      }
    }
  }

  lemma RecordedNow(p: Panel, ticks: seq<Tick>)
    requires ticks != [] && RecordsAt(p, ticks, |ticks| - 1)
    ensures RecordedFrom(p, ticks, |ticks| - 1)
  {
    hide Interfaces, MindAfter, AsksAt;
    OneMore(p, ticks);
  }

  /** Once a sync was recorded, something is. */
  lemma {:induction false} RecordedIsKnown(p: Panel, ticks: seq<Tick>, i: int)
    requires RecordsAt(p, ticks, i)
    ensures MindAfter(p, ticks).known
  {
    hide Interfaces, RecordsAt, MindAfter;
    RecordBounds(p, ticks, i);
    OneMore(p, ticks);
    if i < |ticks| - 1 {
      Prefix(p, ticks, |ticks| - 1, i);
      RecordedIsKnown(p, ticks[..|ticks| - 1], i);
    }
  }

  /** Recorded revisions never go back when the panel's never do. */
  lemma {:induction false} RevisionNeverGoesBack(p: Panel, ticks: seq<Tick>, n: nat)
    requires InOrder(p, ticks) && NeverBack(p) && n <= |ticks| && MindAfter(p, ticks[..n]).known
    ensures MindAfter(p, ticks).known && MindAfter(p, ticks[..n]).revision <= MindAfter(p, ticks).revision
  {
    hide MindAfter, RecordsAt, Interfaces, RecordedFrom;
    RecordIsSnapshot(p, ticks[..n]);
    var i :| RecordedFrom(p, ticks[..n], i);
    RecordedBounds(p, ticks[..n], i);
    Prefix(p, ticks, n, i);
    RecordedIsKnown(p, ticks, i);
    RecordIsSnapshot(p, ticks);
    var j :| RecordedFrom(p, ticks, j);
    RecordedBounds(p, ticks, j);
    assert i <= j;
    if i < j { assert ticks[i].got.value <= ticks[j].seen.value <= ticks[j].got.value; }
    var g, g' := ticks[i].got.value, ticks[j].got.value;
    assert g < g' ==> p[g].revision <= p[g'].revision;
  }

  // ---- no edit is missed ------------------------------------------------------------------------

  /** The agent works with a snapshot at least as new as the k-th. */
  ghost predicate WorksWith(p: Panel, b: Mind, k: nat) {
    b.known && exists j :: k <= j < |p| && b.revision == p[j].revision && b.desired == Interfaces(p[j].interfaces)
  }

  /** A heartbeat that reaches the panel either finds the recorded snapshot to be the one the panel has,
      or asks for the full state; when that succeeds, the agent works with a snapshot at least as new
      as the one the heartbeat saw. So no edit goes unnoticed past the next successful heartbeat. */
  lemma {:induction false} NoEditMissed(p: Panel, ticks: seq<Tick>)
    requires InOrder(p, ticks) && RevisionNames(p) && ticks != [] && ticks[|ticks| - 1].seen.Some?
    ensures var n := |ticks| - 1; var t := ticks[n];
            || WorksWith(p, MindAfter(p, ticks), t.seen.value)
            || (AsksAt(p, ticks, n) && (t.got.None? || !EngineSucceeds(p[t.got.value], t.healthy)))
  {
    hide MindAfter, Interfaces, EngineSucceeds;
    var n := |ticks| - 1;
    var t := ticks[n];
    OneMore(p, ticks);
    RecordIsSnapshot(p, ticks[..n]);
    if RecordsAt(p, ticks, n) {
      assert MindAfter(p, ticks).revision == p[t.got.value].revision;
    } else if !AsksAt(p, ticks, n) {
      var b := MindAfter(p, ticks[..n]);
      var i :| RecordedFrom(p, ticks[..n], i);
      RecordedBounds(p, ticks[..n], i);
      var g := ticks[i].got.value;
      assert p[g].revision == p[t.seen.value].revision;
      assert p[g] == p[t.seen.value];
    }
  }

  /** Until the first successful sync, every heartbeat that reaches the panel asks for the full state. */
  lemma AsksUntilFirstRecord(p: Panel, ticks: seq<Tick>, n: nat)
    requires n < |ticks| && Reported(p, ticks[n]).Some? && NothingRecorded(p, ticks[..n])
    ensures AsksAt(p, ticks, n)
  {
    hide MindAfter, RecordsAt, Interfaces, RecordedFrom;
    RecordIsSnapshot(p, ticks[..n]);
    if i :| RecordedFrom(p, ticks[..n], i) { RecordedBounds(p, ticks[..n], i); }
  }

  /** An edit that is outstanding keeps every later heartbeat asking until a sync succeeds. */
  lemma AsksUntilRecorded(p: Panel, ticks: seq<Tick>, n: nat, m: nat)
    requires InOrder(p, ticks) && NeverBack(p) && n <= m < |ticks| && ticks[n].seen.Some? && ticks[m].seen.Some?
    requires MindAfter(p, ticks[..n]).known && MindAfter(p, ticks[..n]).revision < p[ticks[n].seen.value].revision
    requires forall k | n <= k < m :: !RecordsAt(p, ticks, k)
    ensures AsksAt(p, ticks, m)
  {
    hide MindAfter, RecordsAt, Interfaces;
    RecordStays(p, ticks, n, m);
    var s, s' := ticks[n].seen.value, ticks[m].seen.value;
    assert s <= s';
    assert s < s' ==> p[s].revision <= p[s'].revision;
  }

  lemma {:induction false} RecordStays(p: Panel, ticks: seq<Tick>, n: nat, m: nat)
    requires n <= m <= |ticks| && forall k | n <= k < m :: !RecordsAt(p, ticks, k)
    ensures var b, b' := MindAfter(p, ticks[..n]), MindAfter(p, ticks[..m]);
            b'.known == b.known && b'.revision == b.revision && b'.desired == b.desired
    decreases m - n
  {
    hide MindAfter, RecordsAt, Interfaces;
    if n < m {
      RecordStays(p, ticks, n, m - 1);
      assert ticks[..m][..m - 1] == ticks[..m - 1];
      Prefix(p, ticks, m, m - 1);
      OneMore(p, ticks[..m]);
    }
  }

  // ---- what the next passes start from ----------------------------------------------------------

  ghost predicate LatestTake(p: Panel, ticks: seq<Tick>, i: int) {
    TakesAt(p, ticks, i) && forall k | i < k < |ticks| :: !TakesAt(p, ticks, k)
  }

  lemma TakePush(p: Panel, ticks: seq<Tick>, i: int)
    requires ticks != [] && !TakesAt(p, ticks, |ticks| - 1)
    requires LatestTake(p, ticks[..|ticks| - 1], i)
    ensures LatestTake(p, ticks, i)
  {
    hide TakesAt;
    var n := |ticks| - 1;
    assert i < n by { TakeBounds(p, ticks[..n], i); }
    Prefix(p, ticks, n, i);
    forall k | i < k < |ticks| ensures !TakesAt(p, ticks, k) {
      if k < n { Prefix(p, ticks, n, k); assert !TakesAt(p, ticks[..n], k); }
    }
  }

  lemma TakeBounds(p: Panel, ticks: seq<Tick>, i: int)
    requires TakesAt(p, ticks, i)
    ensures 0 <= i < |ticks| && Served(p, ticks[i]).Some?
  {
  }

  /** The overlay links remembered are those of the snapshot tick i fetched, the latest one. */
  ghost predicate LinksFrom(p: Panel, ticks: seq<Tick>, i: int) {
    LatestTake(p, ticks, i) && MindAfter(p, ticks).vxlan == OverlayConfigs(Served(p, ticks[i]).value.interfaces)
  }

  lemma LinksPush(p: Panel, ticks: seq<Tick>, i: int)
    requires ticks != [] && !TakesAt(p, ticks, |ticks| - 1) && LinksFrom(p, ticks[..|ticks| - 1], i)
    ensures LinksFrom(p, ticks, i)
  {
    hide MindAfter, OverlayConfigs, Served, AsksAt;
    TakeBounds(p, ticks[..|ticks| - 1], i);
    OneMore(p, ticks);
    TakePush(p, ticks, i);
  }

  lemma LinksNow(p: Panel, ticks: seq<Tick>)
    requires ticks != [] && TakesAt(p, ticks, |ticks| - 1)
    ensures LinksFrom(p, ticks, |ticks| - 1)
  {
    hide MindAfter, OverlayConfigs, AsksAt;
    OneMore(p, ticks);
  }

  /** The overlay links the next pass starts from are those of the snapshot fetched last, whether or
      not the engine accepted it. */
  lemma {:induction false} OverlayChain(p: Panel, ticks: seq<Tick>)
    ensures || (exists i :: LinksFrom(p, ticks, i))
            || ((forall k | 0 <= k < |ticks| :: !TakesAt(p, ticks, k)) && MindAfter(p, ticks).vxlan == [])
  {
    hide TakesAt, Beat, LinksFrom;
    if ticks != [] {
      var n := |ticks| - 1;
      OverlayChain(p, ticks[..n]);
      OneMore(p, ticks);
      if TakesAt(p, ticks, n) {
        LinksNow(p, ticks);
      } else if i :| LinksFrom(p, ticks[..n], i) {
        LinksPush(p, ticks, i);
      } else {
        forall k | 0 <= k < |ticks| ensures !TakesAt(p, ticks, k) {
          if k < n { Prefix(p, ticks, n, k); assert !TakesAt(p, ticks[..n], k); }
        }
      }
    }
  }

  /** Tick i takes in a snapshot with this interface. */
  ghost predicate TakesIface(p: Panel, ticks: seq<Tick>, i: int, iface: Interface) {
    TakesAt(p, ticks, i) && iface in Interfaces(Served(p, ticks[i]).value.interfaces)
  }

  ghost predicate TakesName(p: Panel, ticks: seq<Tick>, i: int, name: string) {
    exists iface :: TakesIface(p, ticks, i, iface) && iface.name == name
  }

  /** The custom entries remembered for a name are those of the snapshot, among the fetched ones, that
      named it last. */
  ghost predicate EntriesFrom(p: Panel, ticks: seq<Tick>, name: string, i: int, iface: Interface) {
    && TakesIface(p, ticks, i, iface) && iface.name == name
    && ExtrasOf(MindAfter(p, ticks).extras, name) == iface.extras
    && forall k | i < k < |ticks| :: !TakesName(p, ticks, k, name)
  }

  ghost predicate NamesDistinct(p: Panel) {
    forall k | 0 <= k < |p| :: DistinctNames(Interfaces(p[k].interfaces))
  }

  lemma PrefixNames(p: Panel, ticks: seq<Tick>, n: nat, k: int, name: string)
    requires k < n <= |ticks|
    ensures TakesName(p, ticks[..n], k, name) <==> TakesName(p, ticks, k, name)
    ensures forall iface :: TakesIface(p, ticks[..n], k, iface) <==> TakesIface(p, ticks, k, iface)
  {
    hide TakesAt, Served, Interfaces;
    Prefix(p, ticks, n, k);
    if TakesAt(p, ticks, k) { TakeBounds(p, ticks, k); }
    assert forall iface :: TakesIface(p, ticks[..n], k, iface) <==> TakesIface(p, ticks, k, iface);
  }

  /** The `prev` handed to the custom entries of an interface is what its latest fetched configuration
      asked for, whether or not the engine accepted that snapshot and however many snapshots without
      the interface came in between. */
  lemma {:induction false} ExtrasChain(p: Panel, ticks: seq<Tick>, name: string)
    requires NamesDistinct(p)
    ensures || (exists i, iface :: EntriesFrom(p, ticks, name, i, iface))
            || ((forall k | 0 <= k < |ticks| :: !TakesName(p, ticks, k, name))
                && ExtrasOf(MindAfter(p, ticks).extras, name) == NO_EXTRAS)
  {
    hide Interfaces, TakesIface, TakesName, MindAfter, ExtrasOf, NamesDistinct;
    if ticks == [] {
      NoEntriesYet(p, name);
    } else {
      var n := |ticks| - 1;
      ExtrasChain(p, ticks[..n], name);
      ExtrasStep(p, ticks, name);
      forall k | 0 <= k < n { PrefixNames(p, ticks, n, k, name); }
      if TakesName(p, ticks, n, name) {
        NamedEntries(p, ticks, name);
      } else if i, iface :| EntriesFrom(p, ticks[..n], name, i, iface) {
        CarriedEntries(p, ticks, name, i, iface);
      } else {
        forall k | 0 <= k < |ticks| ensures !TakesName(p, ticks, k, name) {
          if k < n { assert !TakesName(p, ticks[..n], k, name); PrefixNames(p, ticks, n, k, name); }
        }
      }
    }
  }

  lemma NoEntriesYet(p: Panel, name: string)
    ensures ExtrasOf(MindAfter(p, []).extras, name) == NO_EXTRAS
  {
  }

  /** One tick, seen by the custom entries of one name. */
  lemma ExtrasStep(p: Panel, ticks: seq<Tick>, name: string)
    requires NamesDistinct(p) && ticks != []
    ensures var n := |ticks| - 1; var b, b' := MindAfter(p, ticks[..n]), MindAfter(p, ticks);
            && (!TakesName(p, ticks, n, name) ==> ExtrasOf(b'.extras, name) == ExtrasOf(b.extras, name))
            && forall iface | TakesIface(p, ticks, n, iface) && iface.name == name :: ExtrasOf(b'.extras, name)
                == iface.extras
  {
    hide Interfaces, MindAfter, ExtrasAfter, ExtrasOf, AsksAt, EngineSucceeds;
    var n := |ticks| - 1;
    OneMore(p, ticks);
    if TakesAt(p, ticks, n) {
      var ifaces := Interfaces(Served(p, ticks[n]).value.interfaces);
      assert Served(p, ticks[n]).value in p;
      ExtrasAfterGives(MindAfter(p, ticks[..n]).extras, ifaces, name);
      forall iface | iface in ifaces ensures TakesIface(p, ticks, n, iface) { }
    }
  }

  lemma NamedEntries(p: Panel, ticks: seq<Tick>, name: string)
    requires NamesDistinct(p) && ticks != [] && TakesName(p, ticks, |ticks| - 1, name)
    ensures exists i, iface :: EntriesFrom(p, ticks, name, i, iface)
  {
    hide TakesIface, MindAfter, ExtrasOf, NamesDistinct;
    ExtrasStep(p, ticks, name);
    var iface :| TakesIface(p, ticks, |ticks| - 1, iface) && iface.name == name;
    assert EntriesFrom(p, ticks, name, |ticks| - 1, iface);
  }

  lemma CarriedEntries(p: Panel, ticks: seq<Tick>, name: string, i: int, iface: Interface)
    requires NamesDistinct(p) && ticks != [] && !TakesName(p, ticks, |ticks| - 1, name)
    requires EntriesFrom(p, ticks[..|ticks| - 1], name, i, iface)
    ensures EntriesFrom(p, ticks, name, i, iface)
  {
    hide MindAfter, ExtrasOf, NamesDistinct, TakesName, TakesIface;
    var n := |ticks| - 1;
    ExtrasStep(p, ticks, name);
    assert i < n by { assert TakesIface(p, ticks[..n], i, iface); IfaceBounds(p, ticks[..n], i, iface); }
    PrefixNames(p, ticks, n, i, name);
    forall k | i < k < |ticks| ensures !TakesName(p, ticks, k, name) {
      if k < n { PrefixNames(p, ticks, n, k, name); assert !TakesName(p, ticks[..n], k, name); }
    }
  }

  lemma IfaceBounds(p: Panel, ticks: seq<Tick>, i: int, iface: Interface)
    requires TakesIface(p, ticks, i, iface)
    ensures 0 <= i < |ticks|
  {
  }

  // ---- where the guarantee stops ----------------------------------------------------------------

  /** The last heartbeat reached the panel while it had snapshot `seen`, and a fetch would be served snapshot
      `got`. */
  ghost predicate Reached(p: Panel, ticks: seq<Tick>) {
    ticks != [] && Reported(p, ticks[|ticks| - 1]).Some? && Served(p, ticks[|ticks| - 1]).Some?
  }

  /** It asks for the full state exactly when it is forced or the revision it sees is not the recorded one:
      that of the snapshot which tick i fetched. */
  lemma AsksIff(p: Panel, ticks: seq<Tick>, i: int)
    requires Reached(p, ticks) && RecordedFrom(p, ticks[..|ticks| - 1], i)
    ensures var n := |ticks| - 1;
            TakesAt(p, ticks, n) <==>
              ticks[n].force || Reported(p, ticks[n]).value != Served(p, ticks[i]).value.revision
  {
    hide MindAfter, Interfaces;
    var n := |ticks| - 1;
    RecordedBounds(p, ticks[..n], i);
    RecordedIsKnown(p, ticks[..n], i);
  }

  /** What a heartbeat leaves the agent with, over every run. When snapshot r is recorded, the agent ends
      with the state of the snapshot `got` exactly when the engine accepts it and the heartbeat was forced
      or saw another revision than that of r, or the two snapshots ask for the same state anyway. So a
      panel that uses a revision twice hides the edit in between. */
  lemma EditReachesAgentIff(p: Panel, ticks: seq<Tick>, i: int)
    requires Reached(p, ticks) && RecordedFrom(p, ticks[..|ticks| - 1], i)
    ensures var t := ticks[|ticks| - 1]; var r, got := Served(p, ticks[i]).value, Served(p, t).value;
            MindAfter(p, ticks).desired == Interfaces(got.interfaces) <==>
              || (EngineSucceeds(got, t.healthy) && (t.force || Reported(p, t).value != r.revision))
              || Interfaces(r.interfaces) == Interfaces(got.interfaces)
  {
    hide MindAfter, Interfaces, EngineSucceeds, TakesAt;
    AsksIff(p, ticks, i);
    RecordedBounds(p, ticks[..|ticks| - 1], i);
    OneMore(p, ticks);
  }

  /** The same for the overlay links, which are taken over even when the engine fails: when r is recorded and
      the links are those of snapshot l, the agent ends with the links of `got` exactly when the heartbeat
      was forced or saw another revision than that of r, or l and `got` ask for the same links. So a panel
      that goes back to the recorded revision after a failed sync leaves the links of the failed snapshot
      in place. */
  lemma LinksReachAgentIff(p: Panel, ticks: seq<Tick>, i: int, j: int)
    requires Reached(p, ticks) && RecordedFrom(p, ticks[..|ticks| - 1], i) && LinksFrom(p, ticks[..|ticks| - 1], j)
    ensures var t := ticks[|ticks| - 1]; var r, l, got := Served(p, ticks[i]).value, Served(p, ticks[j]).value,
            Served(p, t).value;
            MindAfter(p, ticks).vxlan == OverlayConfigs(got.interfaces) <==>
              || t.force || Reported(p, t).value != r.revision
              || OverlayConfigs(l.interfaces) == OverlayConfigs(got.interfaces)
  {
    hide MindAfter, Interfaces, OverlayConfigs, TakesAt;
    AsksIff(p, ticks, i);
    TakeBounds(p, ticks[..|ticks| - 1], j);
    OneMore(p, ticks);
  }

  /** Before anything is recorded, every such heartbeat ends with the links of the snapshot it was served,
      and with its state when the engine accepts it. */
  lemma FirstStateReachesAgent(p: Panel, ticks: seq<Tick>)
    requires Reached(p, ticks) && NothingRecorded(p, ticks[..|ticks| - 1])
    ensures var t := ticks[|ticks| - 1]; var got := Served(p, t).value;
            && MindAfter(p, ticks).vxlan == OverlayConfigs(got.interfaces)
            && (EngineSucceeds(got, t.healthy) ==> MindAfter(p, ticks).desired == Interfaces(got.interfaces))
  {
    hide MindAfter, Interfaces, OverlayConfigs, EngineSucceeds, AsksAt;
    AsksUntilFirstRecord(p, ticks, |ticks| - 1);
    OneMore(p, ticks);
  }
}
