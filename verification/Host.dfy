/** The machine the agent runs on, reduced to what its commands change: iptables rules, `ip rule` and
    policy entries, routes, overlay links and WireGuard devices. Every command succeeds when the
    object it names allows it (a reliable host) and matches its object by exact key. */
module Host {
  import opened Text

  type Argv = seq<string>

  datatype Option<+T> = None | Some(value: T)

  /** One iptables rule; the table is "" for the default (filter) table. */
  datatype Rule = Rule(table: string, chain: string, args: Argv)

  datatype RouteKey = RouteKey(dst: string, table: string)

  /** An overlay link: the command that created it, the source address the kernel settled on, and
      what was configured on top. */
  datatype Link = Link(argv: Argv, source: string, addrs: set<string>, up: bool, mtu: nat)

  /** How the kernel shows links: the source address it picks for a tunnel made by a command, and the
      word under which `ip -4 addr show` lists an address added as the given text (None when it does
      not list it, as for IPv6; "10.1.3.1" is listed as "10.1.3.1/32"). */
  datatype LinkView = LinkView(sourceFor: Argv -> string, inet: string -> Option<string>)
  {
    /** The listing of these addresses holds the given word. */
    predicate Shows(addrs: set<string>, word: string) {
      exists a :: a in addrs && inet(a) == Some(word)
    }

    /** The address is listed the way it is written. */
    predicate AsWritten(a: string) { inet(a) == Some(a) }
  }

  /** A WireGuard device. `peers` maps a public key to the stamp of the session it was created with,
      so a peer that is removed and added again is told apart from one that survived; `owner` is the
      cryptokey routing table, where an allowed IP belongs to one peer. */
  datatype Device = Device(privateKey: string, port: int, peers: map<string, nat>, created: nat,
                           owner: map<string, string>)

  /** What the agent asks of the outside world: address and key parsing, local address lookup. The
      answers do not change during a run. */
  datatype Net = Net(parseCIDR: string -> Option<string>, parseKey: string -> Option<string>,
                     parseAddr: string -> bool, isIP: string -> bool,
                     ownerOf: string -> Option<string>, defaultEgress: Option<string>)
  {
    /** Network interfaces have names, and parsing a key gives its canonical text. */
    ghost predicate Valid() {
      && (forall ip :: ownerOf(ip) != Some(""))
      && defaultEgress != Some("")
      && (forall s {:trigger parseKey(s)} :: parseKey(s).Some? ==> parseKey(parseKey(s).value) == parseKey(s))
    }
  }

  // ---- reading `ip` command lines ---------------------------------------------------------------

  predicate IsVerb(f: string) { f == "add" || f == "del" }

  /** Position of the first add/del word, |args| when there is none. */
  function VerbAt(args: Argv): (i: nat)
    ensures i <= |args|
    ensures i < |args| ==> IsVerb(args[i])
    ensures forall j | 0 <= j < i :: !IsVerb(args[j])
  {
    if args == [] || IsVerb(args[0]) then 0 else 1 + VerbAt(args[1..])
  }

  /** The entry an `ip` command is about: its words with the verb set to "add". */
  function EntryOf(args: Argv): Argv
    requires VerbAt(args) < |args|
  {
    args[VerbAt(args) := "add"]
  }

  /** The value that follows a keyword, reading keyword/value pairs. */
  function PairValue(f: Argv, key: string): Option<string> {
    if |f| < 2 then None
    else if f[0] == key then Some(f[1])
    else PairValue(f[2..], key)
  }

  function WithoutPair(f: Argv, key: string): Argv {
    if |f| < 2 then f
    else if f[0] == key then f[2..]
    else f[..2] + WithoutPair(f[2..], key)
  }

  /** Destination and table of a route command; the table is main unless one is named. */
  function RouteKeyOf(f: Argv): RouteKey {
    if f == [] then RouteKey("", "main")
    else
      var table := PairValue(f[1..], "table");
      RouteKey(f[0], if table.Some? then table.value else "main")
  }

  /** How the route leaves: everything but the destination and the table. */
  function RouteVia(f: Argv): Argv {
    if f == [] then [] else WithoutPair(f[1..], "table")
  }

  predicate UsesDevice(via: Argv, dev: string) {
    PairValue(via, "dev") == Some(dev)
  }

  function FlushDevice(routes: map<RouteKey, Argv>, dev: string): map<RouteKey, Argv> {
    map k | k in routes && !UsesDevice(routes[k], dev) :: routes[k]
  }

  // ---- iptables -S ------------------------------------------------------------------------------

  /** iptables quotes an argument that is not a plain word. */
  predicate PlainWord(a: string) { IsToken(a) && a[0] != '"' }

  function Quote(a: string): string {
    if PlainWord(a) then a else "\"" + a + "\""
  }

  function QuoteAll(args: Argv): Argv {
    seq(|args|, i requires 0 <= i < |args| => Quote(args[i]))
  }

  function RuleLine(r: Rule): string {
    "-A " + r.chain + " " + Join(QuoteAll(r.args), " ")
  }

  class Kernel {
    var rules: multiset<Rule>
    var entries: multiset<Argv>
    var routes: map<RouteKey, Argv>
    var links: map<string, Link>
    var devices: map<string, Device>

    const view: LinkView

    /** Number of times something that was there was deleted, flushed or overwritten. */
    ghost var disruptions: nat

    constructor (view: LinkView)
      ensures rules == multiset{} && entries == multiset{} && routes == map[] && links == map[] && devices == map[]
      ensures this.view == view && disruptions == 0
    {
      rules, entries, routes, links, devices := multiset{}, multiset{}, map[], map[], map[];
      this.view := view;
      disruptions := 0;
    }

    /** iptables -C */
    method CheckRule(r: Rule) returns (present: bool)
      ensures present <==> r in rules
    {
      present := r in rules;
    }

    /** iptables -A or -I: the position inside the chain is not modelled. */
    method AddRule(r: Rule)
      modifies this`rules
      ensures rules == old(rules) + multiset{r}
    {
      rules := rules + multiset{r};
    }

    /** iptables -D */
    method DeleteRule(r: Rule) returns (ok: bool)
      modifies this`rules, this`disruptions
      ensures ok <==> r in old(rules)
      ensures rules == old(rules) - multiset{r}
      ensures disruptions == old(disruptions) + if ok then 1 else 0
    {
      ok := r in rules;
      rules := rules - multiset{r};
      disruptions := disruptions + if ok then 1 else 0;
    }

    /** iptables -S <chain>: the policy line, then one line for each copy of each rule. */
    method ListChain(chain: string) returns (lines: seq<string>, ghost listed: seq<Rule>)
      ensures |lines| == |listed| + 1 && lines[0] == "-P " + chain + " ACCEPT"
      ensures forall i | 0 <= i < |listed| :: lines[i + 1] == RuleLine(listed[i])
      ensures forall r :: multiset(listed)[r] == if r.table == "" && r.chain == chain then rules[r] else 0
    {
      hide RuleLine;
      lines, listed := ["-P " + chain + " ACCEPT"], [];
      var rest := rules;
      while |rest| > 0
        invariant |lines| == |listed| + 1 && lines[0] == "-P " + chain + " ACCEPT"
        invariant forall i | 0 <= i < |listed| :: lines[i + 1] == RuleLine(listed[i])
        invariant rest <= rules
        invariant forall r :: multiset(listed)[r] == if r.table == "" && r.chain == chain then rules[r] - rest[r] else 0
        decreases |rest|
      {
        var r :| r in rest;
        ghost var before := rest;
        rest := rest - multiset{r};
        if r.table == "" && r.chain == chain {
          assert multiset(listed + [r]) == multiset(listed) + multiset{r};
          lines, listed := lines + [RuleLine(r)], listed + [r];
        }
      }
    }

    /** ip <args> for the commands that add or delete an entry; a command with neither word leaves
        the entries alone. */
    method Ip(args: Argv) returns (ok: bool)
      modifies this`entries, this`disruptions
      ensures VerbAt(args) == |args| ==> ok && entries == old(entries) && disruptions == old(disruptions)
      ensures VerbAt(args) < |args| && args[VerbAt(args)] == "add" ==>
                ok && entries == old(entries) + multiset{EntryOf(args)} && disruptions == old(disruptions)
      ensures VerbAt(args) < |args| && args[VerbAt(args)] == "del" ==>
                && (ok <==> EntryOf(args) in old(entries))
                && entries == old(entries) - multiset{EntryOf(args)}
                && disruptions == old(disruptions) + if ok then 1 else 0
    {
      var i := VerbAt(args);
      ok := true;
      if i < |args| {
        var entry := EntryOf(args);
        if args[i] == "add" {
          entries := entries + multiset{entry};
        } else {
          ok := entry in entries;
          entries := entries - multiset{entry};
          disruptions := disruptions + if ok then 1 else 0;
        }
      }
    }

    /** ip route replace <f> */
    method RouteReplace(f: Argv)
      modifies this`routes, this`disruptions
      ensures routes == old(routes)[RouteKeyOf(f) := RouteVia(f)]
      ensures disruptions == old(disruptions) + Overwrites(old(routes), RouteKeyOf(f), RouteVia(f))
    {
      disruptions := disruptions + Overwrites(routes, RouteKeyOf(f), RouteVia(f));
      routes := routes[RouteKeyOf(f) := RouteVia(f)];
    }

    /** ip route del <f>: only a route that leaves the same way is deleted. */
    method RouteDel(f: Argv)
      modifies this`routes, this`disruptions
      ensures routes == RoutesWithout(old(routes), f)
      ensures disruptions == old(disruptions) + |old(routes)| - |routes|
    {
      if RouteKeyOf(f) in routes && routes[RouteKeyOf(f)] == RouteVia(f) {
        assert routes.Keys == (routes - {RouteKeyOf(f)}).Keys + {RouteKeyOf(f)};
        disruptions := disruptions + 1;
      }
      routes := RoutesWithout(routes, f);
    }

    /** ip link add / ip tunnel add */
    method LinkCreate(name: string, argv: Argv)
      modifies this`links
      ensures links == if name in old(links) then old(links)
                       else old(links)[name := Link(argv, view.sourceFor(argv), {}, false, 0)]
    {
      if name !in links {
        links := links[name := Link(argv, view.sourceFor(argv), {}, false, 0)];
      }
    }

    /** ip link del: the routes through the device go with it. */
    method LinkDelete(name: string)
      modifies this`links, this`routes, this`disruptions
      ensures name in old(links) ==>
                links == old(links) - {name} && routes == FlushDevice(old(routes), name)
                    && disruptions == old(disruptions) + 1
      ensures name !in old(links) ==>
                links == old(links) && routes == old(routes) && disruptions == old(disruptions)
    {
      if name in links {
        links := links - {name};
        routes := FlushDevice(routes, name);
        disruptions := disruptions + 1;
      }
    }

    /** ip link set <name> up */
    method LinkUp(name: string)
      modifies this`links
      ensures links == if name in old(links) then old(links)[name := old(links)[name].(up := true)] else old(links)
    {
      if name in links { links := links[name := links[name].(up := true)]; }
    }

    /** ip link set <name> mtu <n> */
    method LinkMtu(name: string, mtu: nat)
      modifies this`links
      ensures links == if name in old(links) then old(links)[name := old(links)[name].(mtu := mtu)] else old(links)
    {
      if name in links { links := links[name := links[name].(mtu := mtu)]; }
    }

    /** ip addr flush dev <name> */
    method AddrFlush(name: string)
      modifies this`links, this`disruptions
      ensures links == if name in old(links) then old(links)[name := old(links)[name].(addrs := {})] else old(links)
      ensures disruptions == old(disruptions) + if name in old(links) && old(links)[name].addrs != {} then 1 else 0
    {
      if name in links {
        disruptions := disruptions + if links[name].addrs != {} then 1 else 0;
        links := links[name := links[name].(addrs := {})];
      }
    }

    /** ip addr add <a> dev <name> */
    method AddrAdd(name: string, a: string)
      modifies this`links
      ensures links == if name in old(links) then old(links)[name := old(links)[name].(addrs :=
              old(links)[name].addrs + {a})]
                       else old(links)
    {
      if name in links { links := links[name := links[name].(addrs := links[name].addrs + {a})]; }
    }

    /** Program a WireGuard device through netlink or wgctrl. */
    method SetDevice(name: string, d: Device)
      modifies this`devices
      ensures devices == old(devices)[name := d]
    {
      devices := devices[name := d];
    }

    method RemoveDevice(name: string)
      modifies this`devices
      ensures devices == old(devices) - {name}
    {
      devices := devices - {name};
    }
  }

  /** 1 when a route for the key is there and leaves another way. */
  function Overwrites(routes: map<RouteKey, Argv>, key: RouteKey, via: Argv): nat {
    if key in routes && routes[key] != via then 1 else 0
  }

  function RoutesWithout(routes: map<RouteKey, Argv>, f: Argv): map<RouteKey, Argv> {
    var key := RouteKeyOf(f);
    if key in routes && routes[key] == RouteVia(f) then routes - {key} else routes
  }
}
