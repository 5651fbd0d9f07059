/** The desired state of one node, as the panel describes it. */
module Types {

  /** The operator's custom routes, ip rules and NAT entries of one interface. */
  datatype Extras = Extras(routes: seq<string>, rules: seq<string>, natLines: seq<string>) {
    predicate IsZero() { routes == [] && rules == [] && natLines == [] }
  }

  const NO_EXTRAS := Extras([], [], [])

  datatype Peer = Peer(publicKey: string, presharedKey: string, allowedIPs: string, keepalive: int)

  datatype Interface = Interface(
    name: string, privateKey: string, listenPort: int, address: string, mtu: int,
    masquerade: bool, egress: string, natSubnets: string, policyRoutes: string,
    extras: Extras, peers: seq<Peer>)

  /** What a map lookup gives for an interface that was never applied. */
  const NO_INTERFACE := Interface("", "", 0, "", 0, false, "", "", "", NO_EXTRAS, [])

  function Lookup(m: map<string, Interface>, name: string): Interface {
    if name in m then m[name] else NO_INTERFACE
  }

  ghost predicate DistinctNames(ifaces: seq<Interface>) {
    forall i, j | 0 <= i < j < |ifaces| :: ifaces[i].name != ifaces[j].name
  }

  /** The name -> interface map that remembers a configuration; a later entry wins. */
  function ByName(ifaces: seq<Interface>): (m: map<string, Interface>)
    ensures forall n :: n in m <==> exists i | 0 <= i < |ifaces| :: ifaces[i].name == n
    ensures forall n | n in m :: m[n] in ifaces && m[n].name == n
  {
    if ifaces == [] then map[] else
      var last := ifaces[|ifaces| - 1];
      assert ifaces == ifaces[..|ifaces| - 1] + [last];
      ByName(ifaces[..|ifaces| - 1])[last.name := last]
  }

  lemma ByNameDistinct(ifaces: seq<Interface>, i: nat)
    requires DistinctNames(ifaces) && i < |ifaces|
    ensures ifaces[i].name in ByName(ifaces) && ByName(ifaces)[ifaces[i].name] == ifaces[i]
  {
    var found := ByName(ifaces)[ifaces[i].name];
    var j :| 0 <= j < |ifaces| && ifaces[j] == found;
  }
}
