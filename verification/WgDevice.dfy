/** wg/engine.go: the peer delta of one WireGuard device. */
module WgDevice {
  import opened Text
  import opened Host
  import opened Types
  import opened Nat

  /** One entry of a device configuration call. An update replaces the allowed IPs of the peer. */
  datatype PeerConfig = Update(key: string, allowed: seq<string>) | Remove(key: string)

  const NEW_DEVICE := Device("", 0, map[], 0, map[])

  // ---- what the kernel does with a configuration call -------------------------------------------

  function OwnedBy(owner: map<string, string>, key: string): set<string> {
    set c | c in owner && owner[c] == key
  }

  /** An allowed IP belongs to one peer: assigning it takes it from whoever had it. */
  function Configure(d: Device, pc: PeerConfig): Device {
    match pc
    case Update(key, allowed) =>
      d.(peers := if key in d.peers then d.peers else d.peers[key := d.created],
         created := d.created + 1,
         owner := (d.owner - OwnedBy(d.owner, key)) + map c | c in allowed :: key)
    case Remove(key) =>
      d.(peers := d.peers - {key}, owner := d.owner - OwnedBy(d.owner, key))
  }

  function ConfigureAll(d: Device, configs: seq<PeerConfig>): Device {
    if configs == [] then d
    else Configure(ConfigureAll(d, configs[..|configs| - 1]), configs[|configs| - 1])
  }

  // ---- reading the desired peers ----------------------------------------------------------------

  /** The parsed CIDRs of a comma-separated list; None when one is malformed. */
  function Cidrs(net: Net, parts: seq<string>): Option<seq<string>> {
    if parts == [] then Some([]) else
      var rest := Cidrs(net, parts[..|parts| - 1]);
      var s := TrimSpace(parts[|parts| - 1]);
      if rest.None? then None
      else if s == "" then rest
      else if net.parseCIDR(s).None? then None
      else Some(rest.value + [net.parseCIDR(s).value])
  }

  lemma {:induction false} CidrsFail(net: Net, parts: seq<string>, i: nat)
    requires i <= |parts| && Cidrs(net, parts[..i]).None?
    ensures Cidrs(net, parts).None?
  {
    if i < |parts| {
      assert parts[..|parts| - 1][..i] == parts[..i];
      CidrsFail(net, parts[..|parts| - 1], i);
    } else {
      assert parts[..i] == parts;
    }
  }

  method ParseCIDRList(net: Net, list: string) returns (out: Option<seq<string>>)
    ensures out == Cidrs(net, Split(list, ','))
  {
    var parts := Split(list, ',');
    var nets: seq<string> := [];
    for i := 0 to |parts|
      invariant Cidrs(net, parts[..i]) == Some(nets)
    {
      assert parts[..i + 1][..i] == parts[..i];
      var s := TrimSpace(parts[i]);
      if s == "" { continue; }
      var cidr := net.parseCIDR(s);
      if cidr.None? {
        CidrsFail(net, parts, i + 1);
        return None;
      }
      nets := nets + [cidr.value];
    }
    assert parts[..|parts|] == parts;
    return Some(nets);
  }

  /** The update a peer asks for; None when its key, its allowed IPs or its preshared key is malformed. */
  function UpdateOf(net: Net, p: Peer): Option<PeerConfig> {
    var key := net.parseKey(p.publicKey);
    var allowed := Cidrs(net, Split(p.allowedIPs, ','));
    if key.None? || allowed.None? || (p.presharedKey != "" && net.parseKey(p.presharedKey).None?) then None
    else Some(Update(key.value, allowed.value))
  }

  method BuildPeerConfig(net: Net, p: Peer) returns (pc: Option<PeerConfig>)
    ensures pc == UpdateOf(net, p)
  {
    var key := net.parseKey(p.publicKey);
    if key.None? { return None; }
    var allowed := ParseCIDRList(net, p.allowedIPs);
    if allowed.None? { return None; }
    if p.presharedKey != "" {
      if net.parseKey(p.presharedKey).None? { return None; }
    }
    return Some(Update(key.value, allowed.value));
  }

  /** All updates in order; None when some peer is malformed. */
  function Updates(net: Net, peers: seq<Peer>): Option<seq<PeerConfig>> {
    if exists i | 0 <= i < |peers| :: UpdateOf(net, peers[i]).None? then None
    else Some(seq(|peers|, i requires 0 <= i < |peers| => UpdateOf(net, peers[i]).value))
  }

  /** The public keys as the panel wrote them. */
  function Written(peers: seq<Peer>): set<string> {
    set i | 0 <= i < |peers| :: peers[i].publicKey
  }

  /** Peers of the device that no desired peer names literally. */
  function Stale(d: Device, peers: seq<Peer>): set<string> {
    d.peers.Keys - Written(peers)
  }

  function Removals(order: seq<string>): seq<PeerConfig> {
    seq(|order|, i requires 0 <= i < |order| => Remove(order[i]))
  }

  ghost predicate Enumerates(order: seq<string>, s: set<string>) {
    NoDuplicates(order) && forall k :: k in order <==> k in s
  }

  /** The device after reconciling, for some order of the removals (a Go map is walked). */
  ghost predicate DeviceStep(net: Net, iface: Interface, before: Device, after: Device) {
    if !net.parseAddr(iface.address) || net.parseKey(iface.privateKey).None? then after == before
    else
      var keyed := before.(privateKey := net.parseKey(iface.privateKey).value, port := iface.listenPort);
      match Updates(net, iface.peers)
      case None => after == keyed
      case Some(ups) =>
        exists order :: Enumerates(order, Stale(before, iface.peers))
                        && after == ConfigureAll(keyed, ups + Removals(order))
  }

  /** Updates in order, and the keys as written; stops at the first malformed peer. */
  method BuildConfigs(net: Net, peers: seq<Peer>) returns (configs: Option<seq<PeerConfig>>, desired: set<string>)
    ensures configs == Updates(net, peers)
    ensures configs.Some? ==> desired == Written(peers)
  {
    desired := {};
    var built: seq<PeerConfig> := [];
    for i := 0 to |peers|
      invariant desired == Written(peers[..i])
      invariant |built| == i
      invariant forall j | 0 <= j < i :: UpdateOf(net, peers[j]) == Some(built[j])
    {
      assert peers[..i + 1] == peers[..i] + [peers[i]];
      desired := desired + {peers[i].publicKey};
      var pc := BuildPeerConfig(net, peers[i]);
      if pc.None? {
        assert UpdateOf(net, peers[i]).None?;
        return None, desired;
      }
      built := built + [pc.value];
    }
    assert peers[..|peers|] == peers;
    assert Updates(net, peers).value == built;
    return Some(built), desired;
  }

  /** Removals of the current peers nobody asked for, in whatever order the map is walked. */
  method StaleConfigs(peers: set<string>, desired: set<string>) returns (configs: seq<PeerConfig>,
                      ghost order: seq<string>)
    ensures Enumerates(order, peers - desired) && configs == Removals(order)
  {
    var current := peers;
    configs, order := [], [];
    while current != {}
      invariant current <= peers
      invariant forall k :: k in order <==> k in peers && k !in current && k !in desired
      invariant NoDuplicates(order) && configs == Removals(order)
    {
      var pub :| pub in current;
      current := current - {pub};
      if pub in desired { continue; }
      configs := configs + [Remove(pub)];
      assert forall k :: k in order + [pub] <==> k in order || k == pub;
      order := order + [pub];
    }
  }

  method Reconcile(h: Kernel, net: Net, iface: Interface) returns (ok: bool)
    modifies h`devices
    ensures iface.name in h.devices
    ensures DeviceStep(net, iface, if iface.name in old(h.devices) then old(h.devices)[iface.name] else NEW_DEVICE,
                       h.devices[iface.name])
    ensures h.devices == old(h.devices)[iface.name := h.devices[iface.name]]
    ensures ok <==>
              net.parseAddr(iface.address) && net.parseKey(iface.privateKey).Some?
              && Updates(net, iface.peers).Some?
  {
    hide Configure, Updates;
    ghost var before := if iface.name in h.devices then h.devices[iface.name] else NEW_DEVICE;
    var d := if iface.name in h.devices then h.devices[iface.name] else NEW_DEVICE;
    h.SetDevice(iface.name, d);
    if !net.parseAddr(iface.address) { return false; }
    var priv := net.parseKey(iface.privateKey);
    if priv.None? { return false; }
    d := d.(privateKey := priv.value, port := iface.listenPort);
    h.SetDevice(iface.name, d);

    var ups, desired := BuildConfigs(net, iface.peers);
    if ups.None? { return false; }
    ghost var keyed := d;
    var removals, order := StaleConfigs(d.peers.Keys, desired);
    var configs := ups.value + removals;
    assert Enumerates(order, Stale(before, iface.peers));
    if |configs| > 0 {
      d := ConfigureAll(d, configs);
      h.SetDevice(iface.name, d);
    }
    ok := true;
  }

  // ---- what the delta achieves ------------------------------------------------------------------

  /** Some desired peer parses to this key. */
  ghost predicate Wanted(ups: seq<PeerConfig>, key: string) {
    exists i | 0 <= i < |ups| :: ups[i].key == key
  }

  ghost predicate AllUpdates(ups: seq<PeerConfig>) {
    forall i | 0 <= i < |ups| :: ups[i].Update?
  }

  ghost predicate DistinctKeys(ups: seq<PeerConfig>) {
    forall i, j | 0 <= i < j < |ups| :: ups[i].key != ups[j].key
  }

  /** Every owner is a peer, and stamps are older than the next one. */
  ghost predicate ValidDevice(d: Device) {
    && (forall c | c in d.owner :: d.owner[c] in d.peers)
    && (forall k | k in d.peers :: d.peers[k] < d.created)
  }

  /** The key of the last update that lists c. */
  function LastLister(ups: seq<PeerConfig>, c: string): Option<string> {
    if ups == [] then None
    else
      var last := ups[|ups| - 1];
      if last.Update? && c in last.allowed then Some(last.key) else LastLister(ups[..|ups| - 1], c)
  }

  lemma WantedPush(ups: seq<PeerConfig>)
    requires ups != []
    ensures forall k :: Wanted(ups, k) <==> Wanted(ups[..|ups| - 1], k) || k == ups[|ups| - 1].key
  {
    forall k ensures Wanted(ups, k) <==> Wanted(ups[..|ups| - 1], k) || k == ups[|ups| - 1].key {
      if Wanted(ups[..|ups| - 1], k) {
        var i :| 0 <= i < |ups| - 1 && ups[..|ups| - 1][i].key == k;
        assert ups[i].key == k;
      }
      if k == ups[|ups| - 1].key { assert ups[|ups| - 1].key == k; }
    }
  }

  /** Who owns an allowed IP after one update. */
  lemma OwnerStep(d: Device, u: PeerConfig, c: string)
    requires u.Update?
    ensures var r := Configure(d, u);
            && (c in r.owner <==> c in u.allowed || (c in d.owner && d.owner[c] != u.key))
            && (c in u.allowed ==> r.owner[c] == u.key)
            && (c !in u.allowed && c in r.owner ==> r.owner[c] == d.owner[c])
  {
  }

  lemma {:induction false} AfterUpdates(d: Device, ups: seq<PeerConfig>)
    requires AllUpdates(ups) && ValidDevice(d)
    ensures var r := ConfigureAll(d, ups);
            && ValidDevice(r) && r.created >= d.created && r.privateKey == d.privateKey && r.port == d.port
            && (forall k :: k in r.peers <==> k in d.peers || Wanted(ups, k))
            && (forall k | k in d.peers :: r.peers[k] == d.peers[k])
            && (forall k | k in r.peers && k !in d.peers :: r.peers[k] >= d.created)
  {
    if ups != [] {
      var init, last := ups[..|ups| - 1], ups[|ups| - 1];
      AfterUpdates(d, init);
      WantedPush(ups);
    }
  }

  lemma {:induction false} OwnersAfterUpdates(d: Device, ups: seq<PeerConfig>, c: string)
    requires AllUpdates(ups) && DistinctKeys(ups)
    ensures var r := ConfigureAll(d, ups);
            match LastLister(ups, c)
            case Some(key) => c in r.owner && r.owner[c] == key
            case None =>
                (c in r.owner <==> c in d.owner && !Wanted(ups, d.owner[c]))
                  && (c in r.owner ==> r.owner[c] == d.owner[c])
  {
    if ups != [] {
      var init, last := ups[..|ups| - 1], ups[|ups| - 1];
      OwnersAfterUpdates(d, init, c);
      WantedPush(ups);
      if LastLister(init, c).Some? {
        ListerIsWanted(init, c);
        assert Wanted(init, LastLister(init, c).value) && !Wanted(init, last.key);
      }
      OwnerStep(ConfigureAll(d, init), last, c);
    }
  }

  lemma {:induction false} ListerIsWanted(ups: seq<PeerConfig>, c: string)
    requires LastLister(ups, c).Some?
    ensures exists i | 0 <= i < |ups| :: ups[i].key == LastLister(ups, c).value && ups[i].Update? && c in ups[i].allowed
  {
    var init, last := ups[..|ups| - 1], ups[|ups| - 1];
    if last.Update? && c in last.allowed {
      assert ups[|ups| - 1].key == LastLister(ups, c).value;
    } else {
      ListerIsWanted(init, c);
      var i :| 0 <= i < |init| && init[i].key == LastLister(ups, c).value && init[i].Update? && c in init[i].allowed;
      assert ups[i] == init[i];
    }
  }

  lemma RemovalStep(d: Device, k: string)
    ensures var r := Configure(d, Remove(k));
            && r.created == d.created && r.privateKey == d.privateKey && r.port == d.port
            && (forall p :: p in r.peers <==> p in d.peers && p != k)
            && (forall p | p in r.peers :: r.peers[p] == d.peers[p])
            && (forall c :: c in r.owner <==> c in d.owner && d.owner[c] != k)
            && (forall c | c in r.owner :: r.owner[c] == d.owner[c])
  {
  }

  lemma RemovalsPush(configs: seq<PeerConfig>, order: seq<string>)
    requires order != []
    ensures configs + Removals(order) == (configs + Removals(order[..|order| - 1])) + [Remove(order[|order| - 1])]
  {
  }

  lemma {:induction false} AfterRemovals(d: Device, configs: seq<PeerConfig>, order: seq<string>)
    ensures var u, r := ConfigureAll(d, configs), ConfigureAll(d, configs + Removals(order));
            && r.created == u.created && r.privateKey == u.privateKey && r.port == u.port
            && (forall k :: k in r.peers <==> k in u.peers && k !in order)
            && (forall k | k in r.peers :: r.peers[k] == u.peers[k])
            && (forall c :: c in r.owner <==> c in u.owner && u.owner[c] !in order)
            && (forall c | c in r.owner :: r.owner[c] == u.owner[c])
  {
    if order == [] {
      assert configs + Removals(order) == configs;
    } else {
      var init, last := order[..|order| - 1], order[|order| - 1];
      hide Configure, Removals;
      AfterRemovals(d, configs, init);
      RemovalStep(ConfigureAll(d, configs + Removals(init)), last);
      assert order == init + [last];
      RemovalsPush(configs, order);
    }
  }

  /** The device lists its peers by their canonical text. */
  ghost predicate CanonicalPeers(net: Net, d: Device) {
    forall k | k in d.peers :: net.parseKey(k) == Some(k)
  }

  /** The peer delta, for any order of the removals. A peer ends up on the device exactly when the
      configuration names its key and it was not already there under a spelling the panel did not
      use; a peer that stays keeps its session, and a new one gets a new session. */
  lemma PeerDelta(net: Net, iface: Interface, d: Device, r: Device)
    requires net.parseAddr(iface.address) && net.parseKey(iface.privateKey).Some?
    requires Updates(net, iface.peers).Some? && DeviceStep(net, iface, d, r)
    requires net.Valid() && ValidDevice(d) && CanonicalPeers(net, d)
    ensures r.privateKey == net.parseKey(iface.privateKey).value && r.port == iface.listenPort
    ensures var ups := Updates(net, iface.peers).value;
            && (forall k :: k in r.peers <==> Wanted(ups, k) && (k in d.peers ==> k in Written(iface.peers)))
            && (forall k | k in r.peers && k in d.peers :: r.peers[k] == d.peers[k])
            && (forall k | k in r.peers && k !in d.peers :: r.peers[k] >= d.created)
    ensures ValidDevice(r) && CanonicalPeers(net, r) && r.created >= d.created
  {
    var ups := Updates(net, iface.peers).value;
    var keyed := d.(privateKey := net.parseKey(iface.privateKey).value, port := iface.listenPort);
    var order :| Enumerates(order, Stale(d, iface.peers)) && r == ConfigureAll(keyed, ups + Removals(order));
    AfterUpdates(keyed, ups);
    AfterRemovals(keyed, ups, order);
    WantedAreWritten(net, iface.peers);
  }

  lemma WantedAreWritten(net: Net, peers: seq<Peer>)
    requires net.Valid() && Updates(net, peers).Some?
    ensures var ups := Updates(net, peers).value;
            && (forall k | Wanted(ups, k) :: net.parseKey(k) == Some(k))
            && (forall k | net.parseKey(k) == Some(k) && k in Written(peers) :: Wanted(ups, k))
  {
    var ups := Updates(net, peers).value;
    assert forall i | 0 <= i < |peers| :: UpdateOf(net, peers[i]) == Some(ups[i]);
    forall k | net.parseKey(k) == Some(k) && k in Written(peers) ensures Wanted(ups, k) {
      var i :| 0 <= i < |peers| && peers[i].publicKey == k;
      assert ups[i].key == k;
    }
  }

  /** The device has exactly the desired peers if and only if every peer it already had is written by
      the panel the way the kernel prints it. */
  lemma ExactPeersIff(net: Net, iface: Interface, d: Device, r: Device)
    requires net.parseAddr(iface.address) && net.parseKey(iface.privateKey).Some?
    requires Updates(net, iface.peers).Some? && DeviceStep(net, iface, d, r)
    requires net.Valid() && ValidDevice(d) && CanonicalPeers(net, d)
    ensures var ups := Updates(net, iface.peers).value;
            (forall k :: k in r.peers <==> Wanted(ups, k))
            <==> (forall k | k in d.peers && Wanted(ups, k) :: k in Written(iface.peers))
  {
    PeerDelta(net, iface, d, r);
  }

  /** With every key written canonically and listed once, each allowed IP ends with the last desired
      peer that lists it, and with nobody when none does: swaps between peers and IPs of removed peers
      included. */
  lemma AllowedIPs(net: Net, iface: Interface, d: Device, r: Device, c: string)
    requires net.parseAddr(iface.address) && net.parseKey(iface.privateKey).Some?
    requires Updates(net, iface.peers).Some? && DeviceStep(net, iface, d, r)
    requires net.Valid() && ValidDevice(d) && CanonicalPeers(net, d)
    requires DistinctKeys(Updates(net, iface.peers).value)
    requires forall i | 0 <= i < |iface.peers| :: net.parseKey(iface.peers[i].publicKey)
               == Some(iface.peers[i].publicKey)
    ensures var ups := Updates(net, iface.peers).value;
            match LastLister(ups, c)
            case Some(key) => c in r.owner && r.owner[c] == key
            case None => c !in r.owner
  {
    hide Configure, LastLister;
    var ups := Updates(net, iface.peers).value;
    var keyed := d.(privateKey := net.parseKey(iface.privateKey).value, port := iface.listenPort);
    var order :| Enumerates(order, Stale(d, iface.peers)) && r == ConfigureAll(keyed, ups + Removals(order));
    OwnersAfterUpdates(keyed, ups, c);
    AfterRemovals(keyed, ups, order);
    WantedAreWritten(net, iface.peers);
    assert forall k | Wanted(ups, k) :: k in Written(iface.peers) by {
      forall k | Wanted(ups, k) ensures k in Written(iface.peers) {
        var i :| 0 <= i < |ups| && ups[i].key == k;
        assert ups[i] == UpdateOf(net, iface.peers[i]).value;
      }
    }
    if LastLister(ups, c).Some? {
      ListerIsWanted(ups, c);
    }
  }

  /** The device settings or some peer, wherever it stands in the list, do not parse. */
  ghost predicate Malformed(net: Net, iface: Interface) {
    || !net.parseAddr(iface.address) || net.parseKey(iface.privateKey).None?
    || exists i | 0 <= i < |iface.peers| :: UpdateOf(net, iface.peers[i]).None?
  }

  /** One malformed peer leaves every peer, session and allowed IP as it was. The peers and their sessions are
      left alone exactly then, or when the device already has the desired peers and every one of them is
      written the way the kernel prints it. */
  lemma PeersKeptIff(net: Net, iface: Interface, d: Device, r: Device)
    requires DeviceStep(net, iface, d, r) && net.Valid() && ValidDevice(d) && CanonicalPeers(net, d)
    ensures Malformed(net, iface) ==> r.peers == d.peers && r.owner == d.owner && r.created == d.created
    ensures r.peers == d.peers <==>
              || Malformed(net, iface)
              || (&& (forall k | k in d.peers :: k in Written(iface.peers))
                  && forall k | Wanted(Updates(net, iface.peers).value, k) :: k in d.peers)
  {
    if !Malformed(net, iface) {
      PeerDelta(net, iface, d, r);
      WantedAreWritten(net, iface.peers);
    }
  }

  /** A key the panel spells differently from the kernel comes and goes: the peer is added when it is
      missing and removed when it is there, sync after sync. */
  lemma MisspelledKeyFlaps(net: Net, iface: Interface, d: Device, r: Device, k: string)
    requires net.parseAddr(iface.address) && net.parseKey(iface.privateKey).Some?
    requires Updates(net, iface.peers).Some? && DeviceStep(net, iface, d, r)
    requires net.Valid() && ValidDevice(d) && CanonicalPeers(net, d)
    requires Wanted(Updates(net, iface.peers).value, k) && k !in Written(iface.peers)
    ensures k in r.peers <==> k !in d.peers
  {
    PeerDelta(net, iface, d, r);
  }
}
