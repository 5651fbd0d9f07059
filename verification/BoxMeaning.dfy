/** What engine/singbox.go writes down for the program, field by field. */
module BoxMeaning {
  import opened Text
  import opened Host
  import opened Types
  import opened SingBox

  /** The parts of a comma-separated list that hold something, all of them, in order, trimmed. */
  ghost predicate ListRendered(out: seq<string>, list: string) {
    exists at :: PartsAt(out, Split(list, ','), at)
  }

  ghost predicate PartsAt(out: seq<string>, parts: seq<string>, at: seq<nat>) {
    TrimmedAt(parts, at, out) && Increasing(at) && forall k: nat | k < |parts| :: k in at <==> HasWord(parts[k])
  }

  ghost predicate PeerRendered(e: PeerEntry, p: Peer) {
    && e.publicKey == p.publicKey && e.presharedKey == p.presharedKey
    && ListRendered(e.allowedIPs, p.allowedIPs)
    && (p.keepalive > 0 ==> e.keepalive == p.keepalive) && (p.keepalive <= 0 ==> e.keepalive == 0)
  }

  ghost predicate InterfaceRendered(system: bool, e: Endpoint, i: Interface) {
    && e.system == system && e.name == i.name && e.listenPort == i.listenPort && e.privateKey == i.privateKey
    && ListRendered(e.address, i.address)
    && (i.mtu > 0 ==> e.mtu == i.mtu) && (i.mtu <= 0 ==> e.mtu == 0)
    && |e.peers| == |i.peers| && forall j | 0 <= j < |i.peers| :: PeerRendered(e.peers[j], i.peers[j])
  }

  ghost predicate DesiredRendered(system: bool, level: string, conf: Config, desired: seq<Interface>) {
    && conf.level == level && |conf.endpoints| == |desired|
    && forall j | 0 <= j < |desired| :: InterfaceRendered(system, conf.endpoints[j], desired[j])
  }

  lemma TrimmedPush(parts: seq<string>, n: nat)
    requires n < |parts|
    ensures Trimmed(parts[..n + 1])
            == if HasWord(parts[n]) then Trimmed(parts[..n]) + [TrimSpace(parts[n])] else Trimmed(parts[..n])
  {
    hide TrimSpace, HasWord;
    assert parts[..n + 1][..n] == parts[..n];
    TrimmedIff(parts[n]);
  }

  lemma TrimmedPicks(parts: seq<string>) returns (at: seq<nat>)
    ensures PartsAt(Trimmed(parts), parts, at)
  {
    hide TrimSpace, HasWord, Trimmed, TrimmedAt, Increasing;
    at := [];
    NothingTrimmed(parts);
    for n := 0 to |parts|
      invariant TrimmedAt(parts, at, Trimmed(parts[..n])) && Increasing(at)
      invariant forall i | 0 <= i < |at| :: at[i] < n
      invariant forall k: nat | k < n :: k in at <==> HasWord(parts[k])
    {
      TrimmedPush(parts, n);
      if HasWord(parts[n]) {
        PicksPush(parts, at, Trimmed(parts[..n]), n);
        at := at + [n];
      }
    }
    assert parts[..|parts|] == parts;
  }

  lemma NothingTrimmed(parts: seq<string>)
    ensures TrimmedAt(parts, [], Trimmed(parts[..0])) && Increasing([])
  {
  }

  lemma ListIsRendered(list: string)
    ensures ListRendered(Trimmed(Split(list, ',')), list)
  {
    hide Trimmed, Split, PartsAt;
    var at := TrimmedPicks(Split(list, ','));
  }

  lemma PeerIsRendered(p: Peer)
    ensures PeerRendered(PeerOf(p), p)
  {
    hide Trimmed, Split, ListRendered;
    ListIsRendered(p.allowedIPs);
  }

  lemma InterfaceIsRendered(system: bool, i: Interface)
    ensures InterfaceRendered(system, EndpointOf(system, i), i)
  {
    hide Trimmed, Split, ListRendered, PeerOf, PeerRendered;
    ListIsRendered(i.address);
    forall j | 0 <= j < |i.peers| ensures PeerRendered(PeersOf(i.peers)[j], i.peers[j]) {
      PeerIsRendered(i.peers[j]);
    }
  }

  /** The configuration holds every interface in order, and of each one the name, port, key, addresses, MTU and peers
      the panel sent. */
  lemma RenderedMeans(system: bool, level: string, desired: seq<Interface>)
    ensures DesiredRendered(system, level, Rendered(system, level, desired), desired)
  {
    hide EndpointOf, InterfaceRendered;
    forall j | 0 <= j < |desired| ensures InterfaceRendered(system, EndpointOf(system, desired[j]), desired[j]) {
      InterfaceIsRendered(system, desired[j]);
    }
  }

  /** Whenever Apply succeeds, after any run, that is what the file holds and what the current process read. */
  lemma InForceMeans(run: seq<Event>, system: bool, level: string, desired: seq<Interface>, luck: Luck)
    requires Succeeds(AfterRun(run), Rendered(system, level, desired), luck)
    ensures var b := AfterRun(run + [Apply(Rendered(system, level, desired), ByName(desired), luck)]);
            && b.running && b.cmd.Some? && b.disk.Some? && DesiredRendered(system, level, b.disk.value, desired)
            && b.cmd.value in b.loaded && DesiredRendered(system, level, b.loaded[b.cmd.value], desired)
  {
    hide AfterRun, Rendered, DesiredRendered;
    RenderedMeans(system, level, desired);
    ApplyPutsInForce(run, Rendered(system, level, desired), ByName(desired), luck);
  }
}
