/** From access rules and peers to the enumeration of `nftSync`, and what the chain means in
    terms of the configuration. */
module FirewallConfig {
  import opened Nets
  import opened Comments
  import opened Firewall
  import opened FirewallTheorems

  datatype AccessRule = AccessRule(name: string, destinations: seq<string>)

  datatype Config = Config(rules: seq<AccessRule>, peers: seq<AccessPeer>)

  type Show = Net -> string

  // ---------------------------------------------------------------- the enumeration

  function ParsedNets(env: Parsers, texts: seq<string>): seq<Net> {
    if texts == [] then []
    else
      var before := ParsedNets(env, texts[..|texts| - 1]);
      match env.cidr(texts[|texts| - 1]) { case None => before case Some(n) => before + [n] }
  }

  function DestinationsByName(env: Parsers, rules: seq<AccessRule>): map<string, seq<Net>> {
    if rules == [] then map[]
    else
      var last := rules[|rules| - 1];
      DestinationsByName(env, rules[..|rules| - 1])[last.name := ParsedNets(env, last.destinations)]
  }

  function NetsOf(byName: map<string, seq<Net>>, name: string): seq<Net> {
    if name in byName then byName[name] else []
  }

  /** An unreadable address is handled like an IPv6 one whose network prints as "<nil>". */
  function SourceText(show: Show, src: Option<Addr>): string {
    if src.None? then "<nil>" else show(HostNet(src.value))
  }

  predicate SourceIsV6(src: Option<Addr>) {
    src.None? || src.value.family.V6?
  }

  /** A network pair: it is looked up before its families are compared, and no rule can be
      written for an unreadable source. */
  function RouteItem(show: Show, src: Option<Addr>, target: Net): Item {
    Item(CommentOf(SourceText(show, src), show(target)),
         if src.Some? && src.value.family == target.ip.family then [Route(HostNet(src.value), target)] else [])
  }

  /** The DNS and HTTP rules of an IPv6 source share one comment. */
  function DnsItem(env: Parsers, show: Show, src: Option<Addr>, server: string): Item {
    var s := env.ip(server);
    Item(CommentOf(SourceText(show, src), server),
         if src.Some? && s.Some? && s.value.family.V6?
         then [Dns(HostNet(src.value), s.value), Http(HostNet(src.value), s.value)] else [])
  }

  function NetItems(show: Show, src: Option<Addr>, nets: seq<Net>): seq<Item> {
    if nets == [] then []
    else NetItems(show, src, nets[..|nets| - 1]) + [RouteItem(show, src, nets[|nets| - 1])]
  }

  function NameItems(show: Show, src: Option<Addr>, byName: map<string, seq<Net>>, names: seq<string>): seq<Item> {
    if names == [] then []
    else NameItems(show, src, byName, names[..|names| - 1]) + NetItems(show, src, NetsOf(byName, names[|names| - 1]))
  }

  function AddrItems(env: Parsers, show: Show, byName: map<string, seq<Net>>, peer: AccessPeer, addr: string): seq<Item>
    requires peer.status.Some?
  {
    var src, dns := env.ip(addr), peer.status.value.dns;
    NameItems(show, src, byName, peer.spec.accessRules)
    + if SourceIsV6(src) && |dns| > 0 then [DnsItem(env, show, src, dns[0])] else []
  }

  function AddrsItems(env: Parsers, show: Show, byName: map<string, seq<Net>>, peer: AccessPeer, addrs: seq<string>)
    : seq<Item>
    requires peer.status.Some?
  {
    if addrs == [] then []
    else
      AddrsItems(env, show, byName, peer, addrs[..|addrs| - 1])
      + AddrItems(env, show, byName, peer, addrs[|addrs| - 1])
  }

  function PeerItems(env: Parsers, show: Show, byName: map<string, seq<Net>>, peer: AccessPeer): seq<Item> {
    if peer.status.None? then [] else AddrsItems(env, show, byName, peer, Addresses(peer.status.value))
  }

  function PeersItems(env: Parsers, show: Show, byName: map<string, seq<Net>>, peers: seq<AccessPeer>): seq<Item> {
    if peers == [] then []
    else PeersItems(env, show, byName, peers[..|peers| - 1]) + PeerItems(env, show, byName, peers[|peers| - 1])
  }

  function ConfigItems(env: Parsers, show: Show, config: Config): seq<Item> {
    PeersItems(env, show, DestinationsByName(env, config.rules), config.peers)
  }

  // ---------------------------------------------------------------- what a configuration permits

  ghost predicate LastRule(rules: seq<AccessRule>, name: string, i: int) {
    && 0 <= i < |rules| && rules[i].name == name
    && (forall j :: i < j < |rules| ==> rules[j].name != name)
  }

  ghost predicate DestinationOf(env: Parsers, rules: seq<AccessRule>, name: string, n: Net) {
    exists i, d :: LastRule(rules, name, i) && d in rules[i].destinations && env.cidr(d) == Some(n)
  }

  /** The packet goes to a destination, of the source's family, of one of the named rules. */
  ghost predicate RoutePermitted(env: Parsers, rules: seq<AccessRule>, names: seq<string>, p: Packet) {
    exists name, n ::
      name in names && DestinationOf(env, rules, name, n) && InNet(p.dst, n) && n.ip.family == p.src.family
  }

  /** IPv6 DNS or HTTP traffic to the first server. */
  ghost predicate DnsPermitted(env: Parsers, dns: seq<string>, p: Packet) {
    && p.src.family.V6? && |dns| > 0 && env.ip(dns[0]) == Some(p.dst) && p.dst.family.V6?
    && ((p.proto == UDP && p.dport == 53) || (p.proto == TCP && (p.dport == 80 || p.dport == 443)))
  }

  ghost predicate PeerPermits(env: Parsers, rules: seq<AccessRule>, peer: AccessPeer, addr: string, p: Packet) {
    && peer.status.Some? && addr in Addresses(peer.status.value) && env.ip(addr) == Some(p.src)
    && (RoutePermitted(env, rules, peer.spec.accessRules, p) || DnsPermitted(env, peer.status.value.dns, p))
  }

  ghost predicate ConfigPermits(env: Parsers, config: Config, p: Packet) {
    exists peer, addr :: peer in config.peers && PeerPermits(env, config.rules, peer, addr, p)
  }

  // ---------------------------------------------------------------- the enumeration is right

  lemma HostNetIsOneAddress(a: Addr, b: Addr)
    ensures InNet(a, HostNet(b)) <==> a == b
  {
  }

  lemma WantConcat(a: seq<Item>, b: seq<Item>, p: Packet)
    ensures ItemsWant(a + b, p) <==> ItemsWant(a, p) || ItemsWant(b, p)
  {
    var all := a + b;
    if ItemsWant(a, p) {
      var j, m :| 0 <= j < |a| && m in a[j].adds && Hits(m, p);
      assert m in all[j].adds;
    }
    if ItemsWant(b, p) {
      var j, m :| 0 <= j < |b| && m in b[j].adds && Hits(m, p);
      assert m in all[|a| + j].adds;
    }
    if ItemsWant(all, p) {
      var j, m :| 0 <= j < |all| && m in all[j].adds && Hits(m, p);
      assert j < |a| ==> m in a[j].adds;
      assert j >= |a| ==> m in b[j - |a|].adds;
    }
  }

  lemma WantOne(it: Item, p: Packet)
    ensures ItemsWant([it], p) <==> exists m :: m in it.adds && Hits(m, p)
  {
    assert [it][0] == it;
  }

  lemma RouteItemWant(show: Show, src: Option<Addr>, n: Net, p: Packet)
    ensures ItemsWant([RouteItem(show, src, n)], p) <==>
            src == Some(p.src) && n.ip.family == p.src.family && InNet(p.dst, n)
  {
    WantOne(RouteItem(show, src, n), p);
    if src.Some? {
      HostNetIsOneAddress(p.src, src.value);
      assert Route(HostNet(src.value), n) in [Route(HostNet(src.value), n)];
    }
  }

  lemma DnsItemWant(env: Parsers, show: Show, src: Option<Addr>, dns: seq<string>, p: Packet)
    requires |dns| > 0 && SourceIsV6(src)
    ensures ItemsWant([DnsItem(env, show, src, dns[0])], p) <==> src == Some(p.src) && DnsPermitted(env, dns, p)
  {
    var it, s := DnsItem(env, show, src, dns[0]), env.ip(dns[0]);
    WantOne(it, p);
    if src.Some? && s.Some? && s.value.family.V6? {
      HostNetIsOneAddress(p.src, src.value);
      assert it.adds[0] in it.adds && it.adds[1] in it.adds;
    }
  }

  lemma {:induction false} NetItemsWant(show: Show, src: Option<Addr>, nets: seq<Net>, p: Packet)
    ensures ItemsWant(NetItems(show, src, nets), p) <==>
            src == Some(p.src) && exists n :: n in nets && InNet(p.dst, n) && n.ip.family == p.src.family
  {
    if nets != [] {
      var init, last := nets[..|nets| - 1], nets[|nets| - 1];
      assert nets == init + [last];
      NetItemsWant(show, src, init, p);
      RouteItemWant(show, src, last, p);
      WantConcat(NetItems(show, src, init), [RouteItem(show, src, last)], p);
    }
  }

  lemma {:induction false} ParsedNetsAre(env: Parsers, texts: seq<string>, n: Net)
    ensures n in ParsedNets(env, texts) <==> exists d :: d in texts && env.cidr(d) == Some(n)
  {
    if texts != [] {
      var init, last := texts[..|texts| - 1], texts[|texts| - 1];
      assert texts == init + [last];
      ParsedNetsAre(env, init, n);
    }
  }

  lemma {:induction false} DestinationsAre(env: Parsers, rules: seq<AccessRule>, name: string, n: Net)
    ensures n in NetsOf(DestinationsByName(env, rules), name) <==> DestinationOf(env, rules, name, n)
  {
    if rules != [] {
      var k := |rules| - 1;
      ParsedNetsAre(env, rules[k].destinations, n);
      if rules[k].name == name {
        assert LastRule(rules, name, k);
        assert forall i :: LastRule(rules, name, i) ==> i == k;
      } else {
        DestinationsAre(env, rules[..k], name, n);
        assert forall i :: 0 <= i < k ==> rules[..k][i] == rules[i];
        forall i ensures LastRule(rules, name, i) <==> LastRule(rules[..k], name, i) {
        }
      }
    }
  }

  lemma {:induction false} NameItemsWant(env: Parsers, show: Show, src: Option<Addr>, rules: seq<AccessRule>,
                                         names: seq<string>, p: Packet)
    ensures ItemsWant(NameItems(show, src, DestinationsByName(env, rules), names), p) <==>
            src == Some(p.src) && RoutePermitted(env, rules, names, p)
  {
    if names != [] {
      var init, last := names[..|names| - 1], names[|names| - 1];
      assert names == init + [last];
      var nets := NetsOf(DestinationsByName(env, rules), last);
      NameItemsWant(env, show, src, rules, init, p);
      NetItemsWant(show, src, nets, p);
      WantConcat(NameItems(show, src, DestinationsByName(env, rules), init), NetItems(show, src, nets), p);
      forall n {
        DestinationsAre(env, rules, last, n);
      }
    }
  }

  lemma AddrItemsWant(env: Parsers, show: Show, rules: seq<AccessRule>, peer: AccessPeer, addr: string, p: Packet)
    requires peer.status.Some? && addr in Addresses(peer.status.value)
    ensures ItemsWant(AddrItems(env, show, DestinationsByName(env, rules), peer, addr), p) <==>
            PeerPermits(env, rules, peer, addr, p)
  {
    var src, dns, byName := env.ip(addr), peer.status.value.dns, DestinationsByName(env, rules);
    var named := NameItems(show, src, byName, peer.spec.accessRules);
    NameItemsWant(env, show, src, rules, peer.spec.accessRules, p);
    if SourceIsV6(src) && |dns| > 0 {
      DnsItemWant(env, show, src, dns, p);
      WantConcat(named, [DnsItem(env, show, src, dns[0])], p);
    } else {
      assert named + [] == named;
    }
  }

  lemma {:induction false} AddrsItemsWant(env: Parsers, show: Show, rules: seq<AccessRule>, peer: AccessPeer,
                                          addrs: seq<string>, p: Packet)
    requires peer.status.Some? && forall a :: a in addrs ==> a in Addresses(peer.status.value)
    ensures ItemsWant(AddrsItems(env, show, DestinationsByName(env, rules), peer, addrs), p) <==>
            exists a :: a in addrs && PeerPermits(env, rules, peer, a, p)
  {
    if addrs != [] {
      var init, last := addrs[..|addrs| - 1], addrs[|addrs| - 1];
      var byName := DestinationsByName(env, rules);
      assert addrs == init + [last];
      AddrsItemsWant(env, show, rules, peer, init, p);
      AddrItemsWant(env, show, rules, peer, last, p);
      WantConcat(AddrsItems(env, show, byName, peer, init), AddrItems(env, show, byName, peer, last), p);
    }
  }

  /** The enumeration asks for exactly what the configuration permits. */
  lemma {:induction false} ItemsWantIffPermitted(env: Parsers, show: Show, config: Config, p: Packet)
    ensures ItemsWant(ConfigItems(env, show, config), p) <==> ConfigPermits(env, config, p)
    decreases |config.peers|
  {
    var byName, peers := DestinationsByName(env, config.rules), config.peers;
    if peers != [] {
      var init, last := peers[..|peers| - 1], peers[|peers| - 1];
      assert peers == init + [last];
      ItemsWantIffPermitted(env, show, config.(peers := init), p);
      WantConcat(PeersItems(env, show, byName, init), PeerItems(env, show, byName, last), p);
      if last.status.Some? {
        AddrsItemsWant(env, show, config.rules, last, Addresses(last.status.value), p);
      }
      assert ConfigPermits(env, config, p) <==>
        ConfigPermits(env, config.(peers := init), p) || exists a :: PeerPermits(env, config.rules, last, a, p);
    }
  }
}
