/** engine/singbox.go: the sing-box process as a state machine. The engine's methods and the waiter of
    each process exclude one another by a mutex, so a run is a sequence of whole steps; processes die
    at any moment. */
module SingBox {
  import opened Text
  import opened Host
  import opened Types

  // ---- rendering --------------------------------------------------------------------------------

  /** The rendered configuration; its JSON text is one-to-one with this value. */
  datatype PeerEntry = PeerEntry(publicKey: string, allowedIPs: seq<string>, presharedKey: string, keepalive: int)
  datatype Endpoint = Endpoint(system: bool, name: string, listenPort: int, address: seq<string>, privateKey: string,
                               peers: seq<PeerEntry>, mtu: int)
  datatype Config = Config(level: string, endpoints: seq<Endpoint>)

  /** The non-blank parts, trimmed. */
  function Trimmed(parts: seq<string>): seq<string> {
    if parts == [] then [] else
      var s := TrimSpace(parts[|parts| - 1]);
      Trimmed(parts[..|parts| - 1]) + if s != "" then [s] else []
  }

  method SplitCIDRs(list: string) returns (out: seq<string>)
    ensures out == Trimmed(Split(list, ','))
  {
    hide TrimSpace, Split;
    var parts := Split(list, ',');
    out := [];
    for i := 0 to |parts|
      invariant out == Trimmed(parts[..i])
    {
      assert parts[..i + 1][..i] == parts[..i];
      var s := TrimSpace(parts[i]);
      if s != "" { out := out + [s]; }
    }
    assert parts[..|parts|] == parts;
  }

  /** A key or keepalive that is not set is not rendered; 0 and "" stand for that here. */
  function PeerOf(p: Peer): PeerEntry {
    PeerEntry(p.publicKey, Trimmed(Split(p.allowedIPs, ',')), p.presharedKey,
              if p.keepalive > 0 then p.keepalive else 0)
  }

  function PeersOf(peers: seq<Peer>): seq<PeerEntry> {
    seq(|peers|, i requires 0 <= i < |peers| => PeerOf(peers[i]))
  }

  function EndpointOf(system: bool, iface: Interface): Endpoint {
    Endpoint(system, iface.name, iface.listenPort, Trimmed(Split(iface.address, ',')), iface.privateKey,
             PeersOf(iface.peers), if iface.mtu > 0 then iface.mtu else 0)
  }

  function Rendered(system: bool, level: string, desired: seq<Interface>): Config {
    Config(level, seq(|desired|, i requires 0 <= i < |desired| => EndpointOf(system, desired[i])))
  }

  method RenderPeers(peers: seq<Peer>) returns (out: seq<PeerEntry>)
    ensures out == PeersOf(peers)
  {
    hide Trimmed, Split;
    out := [];
    for i := 0 to |peers|
      invariant out == PeersOf(peers[..i])
    {
      var allowed := SplitCIDRs(peers[i].allowedIPs);
      out := out + [PeerEntry(peers[i].publicKey, allowed, peers[i].presharedKey,
                              if peers[i].keepalive > 0 then peers[i].keepalive else 0)];
    }
    assert peers[..|peers|] == peers;
  }

  method Render(system: bool, level: string, desired: seq<Interface>) returns (conf: Config)
    ensures conf == Rendered(system, level, desired)
  {
    hide Trimmed, Split, PeersOf;
    var endpoints: seq<Endpoint> := [];
    for i := 0 to |desired|
      invariant endpoints == Rendered(system, level, desired[..i]).endpoints
    {
      var iface := desired[i];
      var peers := RenderPeers(iface.peers);
      var address := SplitCIDRs(iface.address);
      endpoints := endpoints + [Endpoint(system, iface.name, iface.listenPort, address, iface.privateKey, peers,
                                         if iface.mtu > 0 then iface.mtu else 0)];
    }
    assert desired[..|desired|] == desired;
    return Config(level, endpoints);
  }

  // ---- the state and its steps ------------------------------------------------------------------

  /** `cmd` is the process the engine started last and did not stop; `last` the configuration of the
      last successful start; `disk` the configuration file; `loaded` what each process read when it
      started; `waiting` the processes whose waiter has not run yet. Process numbers are never reused:
      the engine compares command handles, not process ids. */
  datatype Box = Box(cmd: Option<nat>, running: bool, last: Option<Config>, managed: map<string, Interface>,
                     disk: Option<Config>, loaded: map<nat, Config>, alive: set<nat>, waiting: set<nat>, started: nat)

  const NEW_BOX := Box(None, false, None, map[], None, map[], {}, {}, 0)

  /** How writing the file, finding the program and starting it turn out. */
  datatype Luck = Luck(written: bool, found: bool, starts: bool)

  function Stopped(b: Box): Box {
    if b.cmd.None? then b else b.(cmd := None, running := false, alive := b.alive - {b.cmd.value})
  }

  function Started(b: Box): Box
    requires b.disk.Some?
  {
    var p := b.started;
    b.(cmd := Some(p), running := true, loaded := b.loaded[p := b.disk.value], alive := b.alive + {p},
       waiting := b.waiting + {p}, started := p + 1)
  }

  /** The configuration is the one in force, as far as the engine knows: nothing is done. */
  predicate Unchanged(b: Box, conf: Config) { b.running && b.last == Some(conf) }

  predicate Succeeds(b: Box, conf: Config, luck: Luck) {
    Unchanged(b, conf) || (luck.written && luck.found && luck.starts)
  }

  function Applied(b: Box, conf: Config, want: map<string, Interface>, luck: Luck): Box {
    if Unchanged(b, conf) || !luck.written then b
    else
      var stopped := Stopped(b.(disk := Some(conf)));
      if luck.found && luck.starts then Started(stopped).(last := Some(conf), managed := want) else stopped
  }

  /** The process dies on its own. */
  function Died(b: Box, p: nat): Box { b.(alive := b.alive - {p}) }

  /** The waiter of a dead process runs. */
  function Woken(b: Box, p: nat): Box {
    if p !in b.waiting || p in b.alive then b
    else b.(waiting := b.waiting - {p}, running := b.running && b.cmd != Some(p))
  }

  class Engine {
    const system: bool
    const level: string

    var cmd: Option<nat>
    var running: bool
    var lastConfig: Option<Config>
    var managed: map<string, Interface>

    // The machine around the engine.
    var disk: Option<Config>
    var loaded: map<nat, Config>
    var alive: set<nat>
    var waiting: set<nat>
    var started: nat

    constructor (system: bool, level: string)
      ensures this.system == system && this.level == level && State() == NEW_BOX
    {
      this.system, this.level := system, level;
      cmd, running, lastConfig, managed := None, false, None, map[];
      disk, loaded, alive, waiting, started := None, map[], {}, {}, 0;
    }

    ghost function State(): Box
      reads this
    {
      Box(cmd, running, lastConfig, managed, disk, loaded, alive, waiting, started)
    }

    /** stopLocked: kills the process and waits for it. */
    method Stop()
      modifies this
      ensures State() == Stopped(old(State()))
    {
      if cmd.None? { return; }
      alive := alive - {cmd.value};
      cmd, running := None, false;
    }

    /** restartLocked, up to handing the new process to its waiter. */
    method Restart(luck: Luck) returns (ok: bool)
      requires disk.Some?
      modifies this
      ensures ok <==> luck.found && luck.starts
      ensures State() == if ok then Started(Stopped(old(State()))) else Stopped(old(State()))
    {
      Stop();
      if !luck.found { return false; }
      if !luck.starts { return false; }
      var p := started;
      loaded, alive, started := loaded[p := disk.value], alive + {p}, started + 1;
      cmd, running := Some(p), true;
      waiting := waiting + {p};
      return true;
    }

    method Apply(desired: seq<Interface>, luck: Luck) returns (ok: bool)
      modifies this
      ensures State() == Applied(old(State()), Rendered(system, level, desired), ByName(desired), luck)
      ensures ok <==> Succeeds(old(State()), Rendered(system, level, desired), luck)
    {
      hide Rendered;
      var rendered := Render(system, level, desired);
      var want: map<string, Interface> := map[];
      for i := 0 to |desired|
        invariant want == ByName(desired[..i])
        invariant State() == old(State())
      {
        assert desired[..i + 1][..i] == desired[..i];
        want := want[desired[i].name := desired[i]];
      }
      assert desired[..|desired|] == desired;
      if lastConfig == Some(rendered) && running { return true; }
      if !luck.written { return false; }
      disk := Some(rendered);
      ok := Restart(luck);
      if !ok { return; }
      lastConfig := Some(rendered);
      managed := want;
    }

    method Close()
      modifies this
      ensures State() == Stopped(old(State()))
    {
      Stop();
    }

    /** The waiter goroutine of process p, once the process is gone. */
    method Waiter(p: nat)
      requires p in waiting && p !in alive
      modifies this
      ensures State() == Woken(old(State()), p)
    {
      waiting := waiting - {p};
      if cmd == Some(p) {
        running := false;
      }
    }
  }

  // ---- every run --------------------------------------------------------------------------------

  datatype Event = Apply(conf: Config, want: map<string, Interface>, luck: Luck) | Close | Die(p: nat) | Wake(p: nat)

  function Next(b: Box, e: Event): Box {
    match e
    case Apply(conf, want, luck) => Applied(b, conf, want, luck)
    case Close => Stopped(b)
    case Die(p) => Died(b, p)
    case Wake(p) => Woken(b, p)
  }

  function AfterRun(run: seq<Event>): Box {
    if run == [] then NEW_BOX else Next(AfterRun(run[..|run| - 1]), run[|run| - 1])
  }

  /** While `running` is set, the file, the last configuration and what the current process read are one
      and the same; only the current process can be alive; a live one is known to be running; and the
      end of a process that is believed to be running will still be noticed. */
  ghost predicate Consistent(b: Box) {
    && (b.running ==> b.cmd.Some? && b.last.Some? && b.disk == b.last
                      && b.cmd.value in b.loaded && b.loaded[b.cmd.value] == b.last.value
                      && (b.cmd.value in b.alive || b.cmd.value in b.waiting))
    && (forall p | p in b.alive :: b.cmd == Some(p) && b.running && p in b.waiting)
    && (forall p | p in b.alive || p in b.waiting || p in b.loaded :: p < b.started)
    && (b.cmd.Some? ==> b.cmd.value < b.started)
  }

  lemma StepKeepsConsistent(b: Box, e: Event)
    requires Consistent(b)
    ensures Consistent(Next(b, e))
  {
  }

  lemma {:induction false} AlwaysConsistent(run: seq<Event>)
    ensures Consistent(AfterRun(run))
  {
    hide Consistent, Next;
    if run == [] {
      NewIsConsistent();
    } else {
      AlwaysConsistent(run[..|run| - 1]);
      StepKeepsConsistent(AfterRun(run[..|run| - 1]), run[|run| - 1]);
    }
  }

  lemma NewIsConsistent()
    ensures Consistent(NEW_BOX)
  {
  }

  /** Whenever Apply succeeds, early or late, the configuration it was asked for is the one on disk, the
      one remembered and the one the current process read. */
  lemma ApplyPutsInForce(run: seq<Event>, conf: Config, want: map<string, Interface>, luck: Luck)
    requires Succeeds(AfterRun(run), conf, luck)
    ensures var b := AfterRun(run + [Apply(conf, want, luck)]);
            && b.running && b.cmd.Some? && b.disk == b.last == Some(conf)
            && b.cmd.value in b.loaded && b.loaded[b.cmd.value] == conf
  {
    hide AfterRun;
    AlwaysConsistent(run);
    Appended(run, Apply(conf, want, luck));
  }

  lemma Appended(run: seq<Event>, e: Event)
    ensures AfterRun(run + [e]) == Next(AfterRun(run), e)
  {
    assert (run + [e])[..|run|] == run;
  }

  /** A successful Apply leaves a live process exactly when it did not trust a process whose end nobody
      has noticed yet. */
  lemma LiveAfterApplyIff(run: seq<Event>, conf: Config, want: map<string, Interface>, luck: Luck)
    requires Succeeds(AfterRun(run), conf, luck)
    ensures var b := AfterRun(run); var b' := AfterRun(run + [Apply(conf, want, luck)]);
            && (b'.alive == {} <==> Unchanged(b, conf) && b.alive == {})
            && forall p | p in b'.alive :: b'.cmd == Some(p) && p in b'.loaded && b'.loaded[p] == conf
  {
    hide AfterRun;
    AlwaysConsistent(run);
    Appended(run, Apply(conf, want, luck));
    AlwaysConsistent(run + [Apply(conf, want, luck)]);
    ApplyPutsInForce(run, conf, want, luck);
  }

  /** Once every waiter of a dead process has run, `running` tells whether a process is alive, so an
      Apply of the same configuration restarts a crashed process. */
  lemma NoticedCrashIsHealed(run: seq<Event>, conf: Config, want: map<string, Interface>, luck: Luck)
    requires forall p | p in AfterRun(run).waiting :: p in AfterRun(run).alive
    requires Succeeds(AfterRun(run), conf, luck)
    ensures AfterRun(run).running <==> AfterRun(run).alive != {}
    ensures AfterRun(run + [Apply(conf, want, luck)]).alive != {}
  {
    AlwaysConsistent(run);
    LiveAfterApplyIff(run, conf, want, luck);
  }

  /** `running` is only ever cleared because the engine stopped the process or because the waiter of
      the current process saw it end: a waiter of an older process never clears it. */
  lemma RunningClearedOnlyBy(run: seq<Event>, e: Event)
    requires AfterRun(run).running && !AfterRun(run + [e]).running
    ensures var b := AfterRun(run);
            || e.Close?
            || (e.Apply? && e.luck.written && !Succeeds(b, e.conf, e.luck))
            || (e.Wake? && b.cmd == Some(e.p) && b.alive == {})
  {
    hide AfterRun;
    Appended(run, e);
    AlwaysConsistent(run);
  }

  /** The end of a process is noticed, however many other steps come first: as long as its waiter has
      not run and the engine has not stopped it, waking it clears `running`. */
  lemma EndIsNoticed(run: seq<Event>)
    requires AfterRun(run).running && AfterRun(run).alive == {}
    ensures var b := AfterRun(run); b.cmd.Some? && b.cmd.value in b.waiting
    ensures !AfterRun(run + [Wake(AfterRun(run).cmd.value)]).running
  {
    hide AfterRun;
    AlwaysConsistent(run);
    Appended(run, Wake(AfterRun(run).cmd.value));
  }

  /** At most one sing-box process is alive at any time. */
  lemma OneProcess(run: seq<Event>, p: nat, q: nat)
    requires p in AfterRun(run).alive && q in AfterRun(run).alive
    ensures p == q
  {
    AlwaysConsistent(run);
  }

  // ---- what the rendered configuration does not carry -------------------------------------------

  /** Numbers that are not rendered unless positive. */
  predicate SameNumber(a: int, b: int) { a == b || (a <= 0 && b <= 0) }

  /** Lists that differ only in blanks around and empty parts between the commas. */
  predicate SameList(a: string, b: string) { Trimmed(Split(a, ',')) == Trimmed(Split(b, ',')) }

  predicate SamePeer(a: Peer, b: Peer) {
    && a.publicKey == b.publicKey && a.presharedKey == b.presharedKey
    && SameList(a.allowedIPs, b.allowedIPs) && SameNumber(a.keepalive, b.keepalive)
  }

  /** The two interfaces look the same to sing-box. */
  predicate SameDatapath(a: Interface, b: Interface) {
    && a.name == b.name && a.listenPort == b.listenPort && a.privateKey == b.privateKey
    && SameList(a.address, b.address) && SameNumber(a.mtu, b.mtu)
    && |a.peers| == |b.peers| && forall i | 0 <= i < |a.peers| :: SamePeer(a.peers[i], b.peers[i])
  }

  predicate SameDatapaths(was: seq<Interface>, now: seq<Interface>) {
    |was| == |now| && forall i | 0 <= i < |was| :: SameDatapath(was[i], now[i])
  }

  lemma EndpointEqualIff(system: bool, a: Interface, b: Interface)
    ensures EndpointOf(system, a) == EndpointOf(system, b) <==> SameDatapath(a, b)
  {
    hide Trimmed, Split;
    assert |PeersOf(a.peers)| == |a.peers| && |PeersOf(b.peers)| == |b.peers|;
    if |a.peers| == |b.peers| {
      forall i | 0 <= i < |a.peers| ensures PeersOf(a.peers)[i] == PeersOf(b.peers)[i] <==>
          SamePeer(a.peers[i], b.peers[i]) {
      }
    }
  }

  /** Two configurations are rendered alike exactly when their interfaces agree, one by one and in order, on
      name, port, key, addresses, MTU and peers, up to blanks in lists and numbers that are not set.
      Masquerading, egress, policy lines and custom entries are not rendered. */
  lemma RenderedEqualIff(system: bool, level: string, was: seq<Interface>, now: seq<Interface>)
    ensures Rendered(system, level, was) == Rendered(system, level, now) <==> SameDatapaths(was, now)
  {
    hide EndpointOf, SameDatapath;
    var a, b := Rendered(system, level, was).endpoints, Rendered(system, level, now).endpoints;
    if |was| == |now| {
      forall i | 0 <= i < |was| ensures a[i] == b[i] <==> SameDatapath(was[i], now[i]) {
        EndpointEqualIff(system, was[i], now[i]);
      }
    }
  }

  /** After a successful Apply that started a process, applying another configuration changes nothing, and the
      engine still manages the old interfaces, exactly when sing-box sees no difference. So a change of
      masquerading, egress, policy lines or custom entries alone does not reach it. */
  lemma ChangeIgnoredIff(run: seq<Event>, system: bool, level: string, was: seq<Interface>, now: seq<Interface>,
                         first: Luck, luck: Luck)
    requires Succeeds(AfterRun(run), Rendered(system, level, was), first)
             && !Unchanged(AfterRun(run), Rendered(system, level, was))
    requires luck.written && luck.found && luck.starts
    ensures var applied := run + [Apply(Rendered(system, level, was), ByName(was), first)];
            && AfterRun(applied).managed == ByName(was)
            && (AfterRun(applied + [Apply(Rendered(system, level, now), ByName(now), luck)]) == AfterRun(applied)
                <==> SameDatapaths(was, now))
  {
    hide AfterRun, Rendered, SameDatapaths;
    RenderedEqualIff(system, level, was, now);
    var e := Apply(Rendered(system, level, was), ByName(was), first);
    Appended(run, e);
    Appended(run + [e], Apply(Rendered(system, level, now), ByName(now), luck));
  }

  // ---- whom the engine manages ------------------------------------------------------------------

  /** Step i is an Apply that started a process. */
  ghost predicate StartsAt(run: seq<Event>, i: int) {
    && 0 <= i < |run| && run[i].Apply?
    && Succeeds(AfterRun(run[..i]), run[i].conf, run[i].luck) && !Unchanged(AfterRun(run[..i]), run[i].conf)
  }

  /** The last one that did. */
  ghost predicate LastStart(run: seq<Event>, i: int) {
    StartsAt(run, i) && forall j | i < j < |run| :: !StartsAt(run, j)
  }

  lemma StartsPush(run: seq<Event>, e: Event, i: int)
    requires i < |run|
    ensures StartsAt(run + [e], i) <==> StartsAt(run, i)
  {
    hide AfterRun, Unchanged;
    if 0 <= i { assert (run + [e])[..i] == run[..i]; }
  }

  lemma LastStartPush(run: seq<Event>, e: Event, i: int)
    requires LastStart(run, i) && !StartsAt(run + [e], |run|)
    ensures LastStart(run + [e], i)
  {
    hide StartsAt;
    assert i < |run| by { StartBounds(run, i); }
    StartsPush(run, e, i);
    forall j | i < j < |run + [e]| ensures !StartsAt(run + [e], j) {
      if j < |run| { StartsPush(run, e, j); }
    }
  }

  lemma StartBounds(run: seq<Event>, i: int)
    requires StartsAt(run, i)
    ensures 0 <= i < |run| && run[i].Apply?
  {
  }

  lemma StartStep(run: seq<Event>, e: Event)
    ensures var b, b' := AfterRun(run), AfterRun(run + [e]);
            if StartsAt(run + [e], |run|) then e.Apply? && b'.managed == e.want && b'.last == Some(e.conf)
            else b'.managed == b.managed && b'.last == b.last
  {
    hide AfterRun;
    Appended(run, e);
    assert (run + [e])[..|run|] == run && (run + [e])[|run|] == e;
  }

  /** The interfaces the engine manages, and the configuration it remembers, always are those of the last Apply
      that started a process, through crashes, failed starts and early returns alike. */
  ghost predicate ManagedFrom(run: seq<Event>, i: int) {
    LastStart(run, i) && AfterRun(run).managed == run[i].want && AfterRun(run).last == Some(run[i].conf)
  }

  lemma {:induction false} ManagedIsLastStarted(run: seq<Event>)
    ensures || (exists i :: ManagedFrom(run, i))
            || ((forall i :: !StartsAt(run, i)) && AfterRun(run).managed == map[] && AfterRun(run).last == None)
  {
    hide StartsAt, Next;
    if run != [] {
      var n := |run| - 1;
      var init, e := run[..n], run[n];
      assert run == init + [e];
      ManagedIsLastStarted(init);
      StartStep(init, e);
      if StartsAt(run, n) {
        assert ManagedFrom(run, n);
      } else if i :| ManagedFrom(init, i) {
        StartBounds(init, i);
        LastStartPush(init, e, i);
        assert ManagedFrom(run, i);
      } else {
        forall i ensures !StartsAt(run, i) {
          if StartsAt(run, i) { StartBounds(run, i); if i < n { StartsPush(init, e, i); } }
        }
      }
    } else {
      forall i ensures !StartsAt(run, i) { if StartsAt(run, i) { StartBounds(run, i); } }
    }
  }

  /** So after a successful Apply the engine manages what it was asked for, exactly when it was not running the
      very configuration of the last start, or that start asked for the same interfaces. */
  lemma ManagedIsCurrentIff(run: seq<Event>, i: int, conf: Config, want: map<string, Interface>, luck: Luck)
    requires LastStart(run, i) && Succeeds(AfterRun(run), conf, luck)
    ensures AfterRun(run + [Apply(conf, want, luck)]).managed == want
            <==> !AfterRun(run).running || run[i].conf != conf || run[i].want == want
  {
    hide AfterRun, StartsAt;
    StartBounds(run, i);
    ManagedIsLastStarted(run);
    var j :| ManagedFrom(run, j);
    StartBounds(run, j);
    assert i == j;
    Appended(run, Apply(conf, want, luck));
  }
}
