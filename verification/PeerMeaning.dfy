/** What the peers of an interface mean, read off the panel's text, and that the peer delta of wg/engine.go puts
    exactly that on the device. */
module PeerMeaning {
  import opened Text
  import opened Host
  import opened Types
  import opened Meaning
  import opened WgDevice

  /** The peer lists allowed IP c: some part of its comma-separated list parses to it. */
  ghost predicate Allows(net: Net, p: Peer, c: string) {
    exists part :: Item(p.allowedIPs, part) && net.parseCIDR(part) == Some(c)
  }

  /** Key, preshared key if there is one, and every allowed IP of the peer parse. */
  ghost predicate PeerReadable(net: Net, p: Peer) {
    && net.parseKey(p.publicKey).Some?
    && (p.presharedKey != "" ==> net.parseKey(p.presharedKey).Some?)
    && forall part | Item(p.allowedIPs, part) :: net.parseCIDR(part).Some?
  }

  ghost predicate InterfaceReadable(net: Net, i: Interface) {
    && net.parseAddr(i.address) && net.parseKey(i.privateKey).Some?
    && forall j | 0 <= j < |i.peers| :: PeerReadable(net, i.peers[j])
  }

  /** Some peer has a public key that the kernel prints as k. */
  ghost predicate HasKey(net: Net, i: Interface, k: string) {
    exists j | 0 <= j < |i.peers| :: net.parseKey(i.peers[j].publicKey) == Some(k)
  }

  /** Some peer has its public key written as k. */
  ghost predicate Writes(i: Interface, k: string) {
    exists j | 0 <= j < |i.peers| :: i.peers[j].publicKey == k
  }

  /** Some part among the first ones holds something and parses to c. */
  ghost predicate PartParses(net: Net, parts: seq<string>, c: string) {
    exists p :: p in parts && HasWord(p) && net.parseCIDR(TrimSpace(p)) == Some(c)
  }

  lemma {:induction false} CidrsIff(net: Net, parts: seq<string>, c: string)
    ensures Cidrs(net, parts).Some? <==> forall p | p in parts && HasWord(p) :: net.parseCIDR(TrimSpace(p)).Some?
    ensures Cidrs(net, parts).Some? ==> (c in Cidrs(net, parts).value <==> PartParses(net, parts, c))
  {
    hide TrimSpace, HasWord;
    if parts != [] {
      var init, last := parts[..|parts| - 1], parts[|parts| - 1];
      assert parts == init + [last];
      CidrsIff(net, init, c);
      TrimmedIff(last);
    }
  }

  lemma ItemsOf(net: Net, list: string, c: string)
    ensures PartParses(net, Split(list, ','), c) <==> exists part :: Item(list, part) && net.parseCIDR(part) == Some(c)
    ensures (forall p | p in Split(list, ',') && HasWord(p) :: net.parseCIDR(TrimSpace(p)).Some?)
            <==> forall part | Item(list, part) :: net.parseCIDR(part).Some?
  {
    hide TrimSpace, HasWord, Split;
    forall p | p in Split(list, ',') && HasWord(p) ensures Item(list, TrimSpace(p)) { }
  }

  lemma UpdateIff(net: Net, p: Peer, c: string)
    ensures UpdateOf(net, p).Some? <==> PeerReadable(net, p)
    ensures UpdateOf(net, p).Some? ==>
              && UpdateOf(net, p).value.Update? && Some(UpdateOf(net, p).value.key) == net.parseKey(p.publicKey)
              && (c in UpdateOf(net, p).value.allowed <==> Allows(net, p, c))
  {
    hide TrimSpace, HasWord, Split, Cidrs, PartParses, Item;
    CidrsIff(net, Split(p.allowedIPs, ','), c);
    ItemsOf(net, p.allowedIPs, c);
  }

  /** The settings or some peer of the interface do not parse. */
  lemma ReadableIff(net: Net, i: Interface)
    ensures InterfaceReadable(net, i) <==> !Malformed(net, i)
    ensures InterfaceReadable(net, i) ==> Updates(net, i.peers).Some? && |Updates(net, i.peers).value| == |i.peers|
    ensures InterfaceReadable(net, i) ==>
              forall j | 0 <= j < |i.peers| :: UpdateOf(net, i.peers[j]) == Some(Updates(net, i.peers).value[j])
  {
    hide PeerReadable, UpdateOf;
    forall j | 0 <= j < |i.peers| ensures UpdateOf(net, i.peers[j]).Some? <==> PeerReadable(net, i.peers[j]) {
      UpdateIff(net, i.peers[j], "");
    }
  }

  lemma WantedIff(net: Net, i: Interface, k: string)
    requires InterfaceReadable(net, i)
    ensures Updates(net, i.peers).Some? && (Wanted(Updates(net, i.peers).value, k) <==> HasKey(net, i, k))
    ensures k in Written(i.peers) <==> Writes(i, k)
  {
    hide UpdateOf, PeerReadable, Updates;
    ReadableIff(net, i);
    forall j | 0 <= j < |i.peers| ensures net.parseKey(i.peers[j].publicKey)
        == Some(Updates(net, i.peers).value[j].key) {
      UpdateIff(net, i.peers[j], "");
    }
  }

  /** The device after one reconciliation. When something does not parse, no peer, session or allowed IP moves.
      Otherwise key and port are the wanted ones, and the peers are those with a wanted key, except for one
      that was there and that the panel spells otherwise than the kernel. */
  lemma DeviceMeans(net: Net, i: Interface, d: Device, r: Device, k: string)
    requires DeviceStep(net, i, d, r) && net.Valid() && ValidDevice(d) && CanonicalPeers(net, d)
    ensures !InterfaceReadable(net, i) ==> r.peers == d.peers && r.owner == d.owner
    ensures InterfaceReadable(net, i) ==>
              && Some(r.privateKey) == net.parseKey(i.privateKey) && r.port == i.listenPort
              && (k in r.peers <==> HasKey(net, i, k) && (k in d.peers ==> Writes(i, k)))
              && (k in r.peers && k in d.peers ==> r.peers[k] == d.peers[k])
  {
    hide DeviceStep, HasKey, Writes, Written, Wanted, Updates, InterfaceReadable;
    ReadableIff(net, i);
    if InterfaceReadable(net, i) {
      WantedIff(net, i, k);
      UnreadableIsMalformed(net, i);
      PeerDelta(net, i, d, r);
    } else {
      PeersKeptIff(net, i, d, r);
    }
  }

  lemma UnreadableIsMalformed(net: Net, i: Interface)
    requires !Malformed(net, i)
    ensures net.parseAddr(i.address) && net.parseKey(i.privateKey).Some?
  {
  }

  /** Every public key is written the way the kernel prints it, and none twice. */
  ghost predicate WellSpelled(net: Net, i: Interface) {
    && (forall j | 0 <= j < |i.peers| :: net.parseKey(i.peers[j].publicKey) == Some(i.peers[j].publicKey))
    && forall j, l | 0 <= j < l < |i.peers| :: i.peers[j].publicKey != i.peers[l].publicKey
  }

  /** Peer j is the last one to list c. */
  ghost predicate ListsLast(net: Net, i: Interface, c: string, j: int) {
    0 <= j < |i.peers| && Allows(net, i.peers[j], c) && forall l | j < l < |i.peers| :: !Allows(net, i.peers[l], c)
  }

  /** The last peer to list c has this key. */
  ghost predicate LastToList(net: Net, i: Interface, c: string, k: string) {
    exists j :: ListsLast(net, i, c, j) && i.peers[j].publicKey == k
  }

  lemma {:induction false} LastListerIs(ups: seq<PeerConfig>, c: string, j: nat)
    requires AllUpdates(ups) && j < |ups| && c in ups[j].allowed
    requires forall l | j < l < |ups| :: c !in ups[l].allowed
    ensures LastLister(ups, c) == Some(ups[j].key)
  {
    if j < |ups| - 1 { LastListerIs(ups[..|ups| - 1], c, j); }
  }

  lemma {:induction false} NoLister(ups: seq<PeerConfig>, c: string)
    requires AllUpdates(ups) && forall l | 0 <= l < |ups| :: c !in ups[l].allowed
    ensures LastLister(ups, c) == None
  {
    if ups != [] { NoLister(ups[..|ups| - 1], c); }
  }

  lemma {:induction false} SomeLast(net: Net, i: Interface, c: string, n: nat) returns (j: int)
    requires n <= |i.peers| && forall l | n <= l < |i.peers| :: !Allows(net, i.peers[l], c)
    ensures ListsLast(net, i, c, j) || (j == -1 && forall l | 0 <= l < |i.peers| :: !Allows(net, i.peers[l], c))
  {
    hide Allows;
    if n == 0 { return -1; }
    if Allows(net, i.peers[n - 1], c) { return n - 1; }
    j := SomeLast(net, i, c, n - 1);
  }

  lemma UpdatesAllow(net: Net, i: Interface, c: string)
    requires InterfaceReadable(net, i) && WellSpelled(net, i)
    ensures var ups := Updates(net, i.peers);
            && ups.Some? && |ups.value| == |i.peers| && AllUpdates(ups.value) && DistinctKeys(ups.value)
            && forall j | 0 <= j < |i.peers| ::
                 ups.value[j].key == i.peers[j].publicKey && (c in ups.value[j].allowed <==> Allows(net, i.peers[j], c))
  {
    hide UpdateOf, PeerReadable, Updates, Allows;
    ReadableIff(net, i);
    forall j | 0 <= j < |i.peers|
      ensures Updates(net, i.peers).value[j].Update?
      ensures Updates(net, i.peers).value[j].key == i.peers[j].publicKey
      ensures c in Updates(net, i.peers).value[j].allowed <==> Allows(net, i.peers[j], c)
    {
      UpdateIff(net, i.peers[j], c);
    }
  }

  lemma ListerMeans(net: Net, i: Interface, c: string)
    requires InterfaceReadable(net, i) && WellSpelled(net, i)
    ensures var ups := Updates(net, i.peers);
            && ups.Some? && DistinctKeys(ups.value)
            && (forall k :: LastLister(ups.value, c) == Some(k) <==> LastToList(net, i, c, k))
            && (LastLister(ups.value, c).Some? <==> exists j | 0 <= j < |i.peers| :: Allows(net, i.peers[j], c))
  {
    hide Allows, Updates, LastLister, InterfaceReadable, WellSpelled;
    UpdatesAllow(net, i, c);
    var ups := Updates(net, i.peers).value;
    var j := SomeLast(net, i, c, |i.peers|);
    if j >= 0 { LastListerIs(ups, c, j); } else { NoLister(ups, c); }
  }

  /** Allowed IP c belongs to a peer exactly when that is the last one to list it, and to nobody when none does:
      every part of every list counts, swaps between peers and IPs of removed peers included. */
  lemma OwnerMeans(net: Net, i: Interface, d: Device, r: Device, c: string, k: string)
    requires DeviceStep(net, i, d, r) && net.Valid() && ValidDevice(d) && CanonicalPeers(net, d)
    requires InterfaceReadable(net, i) && WellSpelled(net, i)
    ensures c in r.owner && r.owner[c] == k <==> LastToList(net, i, c, k)
    ensures c in r.owner <==> exists j | 0 <= j < |i.peers| :: Allows(net, i.peers[j], c)
  {
    hide DeviceStep, Allows, Updates, LastLister, LastToList, CanonicalPeers, ValidDevice, DistinctKeys;
    ReadableIff(net, i);
    UnreadableIsMalformed(net, i);
    ListerMeans(net, i, c);
    AllowedIPs(net, i, d, r, c);
  }
}
