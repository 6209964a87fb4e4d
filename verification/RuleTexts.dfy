/** Which comments the rules of a configuration have, in terms of the texts they are made of, and what
    that means when one peer takes another one's place. */
module RuleTexts {
  import opened Nets
  import opened Comments
  import opened Firewall
  import opened FirewallTheorems
  import opened FirewallRepeats
  import opened FirewallConfig
  import opened FirewallHistory

  /** The two texts of an enumerated pair: the network of the peer's address, and the destination or
      the DNS server. */
  datatype Texts = Texts(source: string, target: string)

  /** What is left of them in the comment. */
  function Stripped(t: Texts): string {
    Strip(t.source + t.target)
  }

  function NetText(show: Show, src: Option<Addr>): string {
    match src
    case None => "<nil>"
    case Some(a) => show(Net(a, if a.family.V4? then 32 else 128))
  }

  function NetTexts(show: Show, src: Option<Addr>, nets: seq<Net>): seq<Texts> {
    seq(|nets|, i requires 0 <= i < |nets| => Texts(NetText(show, src), show(nets[i])))
  }

  function NameTexts(show: Show, src: Option<Addr>, byName: map<string, seq<Net>>, names: seq<string>): seq<Texts> {
    if names == [] then []
    else
      var k := |names| - 1;
      NameTexts(show, src, byName, names[..k])
      + if names[k] in byName then NetTexts(show, src, byName[names[k]]) else []
  }

  /** The pairs of one address: with every destination of every rule, and, unless it is an IPv4 address,
      with the first DNS server. */
  function AddrTexts(env: Parsers, show: Show, byName: map<string, seq<Net>>, peer: AccessPeer, addr: string)
    : seq<Texts>
    requires peer.status.Some?
  {
    var src, dns := env.ip(addr), peer.status.value.dns;
    NameTexts(show, src, byName, peer.spec.accessRules)
    + if (src.Some? && src.value.family.V4?) || dns == [] then [] else [Texts(NetText(show, src), dns[0])]
  }

  function AddrsTexts(env: Parsers, show: Show, byName: map<string, seq<Net>>, peer: AccessPeer, addrs: seq<string>)
    : seq<Texts>
    requires peer.status.Some?
  {
    if addrs == [] then []
    else
      AddrsTexts(env, show, byName, peer, addrs[..|addrs| - 1])
      + AddrTexts(env, show, byName, peer, addrs[|addrs| - 1])
  }

  function PeersTexts(env: Parsers, show: Show, byName: map<string, seq<Net>>, peers: seq<AccessPeer>): seq<Texts> {
    if peers == [] then []
    else
      var last := peers[|peers| - 1];
      PeersTexts(env, show, byName, peers[..|peers| - 1])
      + if last.status.None? then []
        else if last.status.value.addresses == [] then AddrTexts(env, show, byName, last, last.status.value.address)
        else AddrsTexts(env, show, byName, last, last.status.value.addresses)
  }

  function ConfigTexts(env: Parsers, show: Show, config: Config): seq<Texts> {
    PeersTexts(env, show, DestinationsByName(env, config.rules), config.peers)
  }

  // ---------------------------------------------------------------- the comments

  ghost predicate Carry(items: seq<Item>, texts: seq<Texts>) {
    |items| == |texts| && forall i :: 0 <= i < |items| ==> items[i].comment == "r" + Stripped(texts[i])
  }

  lemma CarryBoth(a: seq<Item>, s: seq<Texts>, b: seq<Item>, t: seq<Texts>)
    requires Carry(a, s) && Carry(b, t)
    ensures Carry(a + b, s + t)
  {
  }

  lemma {:induction false} NetsCarry(show: Show, src: Option<Addr>, nets: seq<Net>)
    ensures Carry(NetItems(show, src, nets), NetTexts(show, src, nets))
  {
    if nets != [] {
      var k := |nets| - 1;
      NetsCarry(show, src, nets[..k]);
      var last := Texts(NetText(show, src), show(nets[k]));
      assert NetTexts(show, src, nets) == NetTexts(show, src, nets[..k]) + [last];
      CarryBoth(NetItems(show, src, nets[..k]), NetTexts(show, src, nets[..k]),
                [RouteItem(show, src, nets[k])], [last]);
    }
  }

  lemma {:induction false} NamesCarry(show: Show, src: Option<Addr>, byName: map<string, seq<Net>>, names: seq<string>)
    ensures Carry(NameItems(show, src, byName, names), NameTexts(show, src, byName, names))
  {
    if names != [] {
      var k := |names| - 1;
      NamesCarry(show, src, byName, names[..k]);
      NetsCarry(show, src, NetsOf(byName, names[k]));
      CarryBoth(NameItems(show, src, byName, names[..k]), NameTexts(show, src, byName, names[..k]),
                NetItems(show, src, NetsOf(byName, names[k])), NetTexts(show, src, NetsOf(byName, names[k])));
    }
  }

  lemma AddrCarries(env: Parsers, show: Show, byName: map<string, seq<Net>>, peer: AccessPeer, addr: string)
    requires peer.status.Some?
    ensures Carry(AddrItems(env, show, byName, peer, addr), AddrTexts(env, show, byName, peer, addr))
  {
    var src, dns := env.ip(addr), peer.status.value.dns;
    NamesCarry(show, src, byName, peer.spec.accessRules);
    if SourceIsV6(src) && |dns| > 0 {
      CarryBoth(NameItems(show, src, byName, peer.spec.accessRules),
                NameTexts(show, src, byName, peer.spec.accessRules),
                [DnsItem(env, show, src, dns[0])], [Texts(NetText(show, src), dns[0])]);
    } else {
      CarryBoth(NameItems(show, src, byName, peer.spec.accessRules),
                NameTexts(show, src, byName, peer.spec.accessRules), [], []);
    }
  }

  lemma {:induction false} AddrsCarry(env: Parsers, show: Show, byName: map<string, seq<Net>>, peer: AccessPeer,
                                      addrs: seq<string>)
    requires peer.status.Some?
    ensures Carry(AddrsItems(env, show, byName, peer, addrs), AddrsTexts(env, show, byName, peer, addrs))
  {
    if addrs != [] {
      var k := |addrs| - 1;
      AddrsCarry(env, show, byName, peer, addrs[..k]);
      AddrCarries(env, show, byName, peer, addrs[k]);
      CarryBoth(AddrsItems(env, show, byName, peer, addrs[..k]), AddrsTexts(env, show, byName, peer, addrs[..k]),
                AddrItems(env, show, byName, peer, addrs[k]), AddrTexts(env, show, byName, peer, addrs[k]));
    }
  }

  lemma PeerCarries(env: Parsers, show: Show, byName: map<string, seq<Net>>, peer: AccessPeer)
    requires peer.status.Some?
    ensures var status := peer.status.value;
            Carry(PeerItems(env, show, byName, peer),
                  if status.addresses == [] then AddrTexts(env, show, byName, peer, status.address)
                  else AddrsTexts(env, show, byName, peer, status.addresses))
  {
    var legacy := peer.status.value.address;
    AddrsCarry(env, show, byName, peer, Addresses(peer.status.value));
    assert [legacy][..0] == [] && AddrsTexts(env, show, byName, peer, []) == [];
    assert AddrsTexts(env, show, byName, peer, [legacy]) == [] + AddrTexts(env, show, byName, peer, legacy);
  }

  lemma {:induction false} PeersCarry(env: Parsers, show: Show, byName: map<string, seq<Net>>, peers: seq<AccessPeer>)
    ensures Carry(PeersItems(env, show, byName, peers), PeersTexts(env, show, byName, peers))
  {
    if peers != [] {
      var k := |peers| - 1;
      PeersCarry(env, show, byName, peers[..k]);
      if peers[k].status.Some? {
        PeerCarries(env, show, byName, peers[k]);
      }
    }
  }

  /** The comments of a configuration are `r` and what is left of the texts of its pairs. */
  lemma ItemsCarryTexts(env: Parsers, show: Show, config: Config)
    ensures Carry(ConfigItems(env, show, config), ConfigTexts(env, show, config))
  {
    PeersCarry(env, show, DestinationsByName(env, config.rules), config.peers);
  }

  /** The condition of the firewall results on texts: comments are prefix-free if and only if of no two
      enumerated pairs what is left of the one starts with what is left of the other. */
  lemma PrefixFreeIff(env: Parsers, show: Show, config: Config)
    ensures var texts := ConfigTexts(env, show, config);
            PrefixFree(ConfigItems(env, show, config)) <==>
            forall i, j | 0 <= i < |texts| && 0 <= j < |texts| :: Stripped(texts[j]) <= Stripped(texts[i]) ==> i == j
  {
    var items, texts := ConfigItems(env, show, config), ConfigTexts(env, show, config);
    ItemsCarryTexts(env, show, config);
    forall i, j | 0 <= i < |texts| && 0 <= j < |texts|
      ensures items[j].comment <= items[i].comment <==> Stripped(texts[j]) <= Stripped(texts[i])
    {
      SamePrefix(Stripped(texts[j]), Stripped(texts[i]));
    }
  }

  lemma SamePrefix(a: string, b: string)
    ensures "r" + a <= "r" + b <==> a <= b
  {
    assert ("r" + a)[1..] == a && ("r" + b)[1..] == b;
    if "r" + a <= "r" + b {
      assert ("r" + b)[..|"r" + a|] == "r" + a;
      assert b[..|a|] == ("r" + b)[1..1 + |a|];
    }
  }

  // ---------------------------------------------------------------- one peer in place of another

  /** A peer is deleted and another one created with the same rule, between two syncs without failures:
      afterwards exactly the new peer's packets are accepted, if and only if what is left of the old
      pair's texts does not start with what is left of the new one's. */
  lemma ReplacedPeerIff(env: Parsers, show: Show, former: string, latter: string, a: Addr, b: Addr,
                        destination: string, n: Net, next: nat)
    requires env.ip(former) == Some(a) && env.ip(latter) == Some(b) && env.cidr(destination) == Some(n) && a != b
    requires a.family == b.family == n.ip.family && InNet(n.ip, n) && forall m :: IsAddressText(show(m))
    ensures var chain := SyncTimes(Chain([], next), ConfigItems(env, show, OneRule(former, destination)), 1);
            var config := OneRule(latter, destination);
            (forall p :: Accepts(SyncTimes(chain, ConfigItems(env, show, config), 1), p) <==>
                         ConfigPermits(env, config, p))
            <==> !(Strip(show(HostNet(b)) + show(n)) <= Strip(show(HostNet(a)) + show(n)))
  {
    var config := OneRule(latter, destination);
    OneRuleCarries(env, show, former, destination, a, n);
    OneRuleCarries(env, show, latter, destination, b, n);
    SamePrefix(Strip(show(HostNet(b)) + show(n)), Strip(show(HostNet(a)) + show(n)));
    ReplacedItemIff(show, a, b, n, next);
    forall p ensures ItemsWant([RouteItem(show, Some(b), n)], p) <==> ConfigPermits(env, config, p) {
      ItemsWantIffPermitted(env, show, config, p);
    }
  }

  lemma OneRuleCarries(env: Parsers, show: Show, addr: string, destination: string, a: Addr, n: Net)
    requires env.ip(addr) == Some(a) && env.cidr(destination) == Some(n)
    ensures ConfigItems(env, show, OneRule(addr, destination)) == [RouteItem(show, Some(a), n)]
    ensures RouteItem(show, Some(a), n).comment == "r" + Strip(show(HostNet(a)) + show(n))
  {
    OneRuleItems(env, show, addr, destination, a, n);
    OneRuleTexts(env, show, addr, destination, a, n);
    ItemsCarryTexts(env, show, OneRule(addr, destination));
  }

  lemma OneRuleTexts(env: Parsers, show: Show, addr: string, destination: string, a: Addr, n: Net)
    requires env.ip(addr) == Some(a) && env.cidr(destination) == Some(n)
    ensures ConfigTexts(env, show, OneRule(addr, destination)) == [Texts(show(HostNet(a)), show(n))]
  {
    var config := OneRule(addr, destination);
    var byName, peer := DestinationsByName(env, config.rules), config.peers[0];
    assert ParsedNets(env, [destination][..0]) == [];
    assert byName["rule"] == [] + [n] == [n];
    assert NameTexts(show, Some(a), byName, ["rule"][..0]) == [];
    assert NameTexts(show, Some(a), byName, ["rule"]) == NetTexts(show, Some(a), [n]);
    assert AddrsTexts(env, show, byName, peer, [addr][..0]) == [];
    assert PeersTexts(env, show, byName, config.peers[..0]) == [];
  }

  lemma ReplacedItemIff(show: Show, a: Addr, b: Addr, n: Net, next: nat)
    requires a.family == b.family == n.ip.family && InNet(n.ip, n) && a != b && forall m :: IsAddressText(show(m))
    ensures var x, y := RouteItem(show, Some(a), n), RouteItem(show, Some(b), n);
            (forall p :: Accepts(SyncTimes(SyncTimes(Chain([], next), [x], 1), [y], 1), p) <==> ItemsWant([y], p))
            <==> !(y.comment <= x.comment)
  {
    var x, y := RouteItem(show, Some(a), n), RouteItem(show, Some(b), n);
    CommentShape(show(HostNet(a)), show(n));
    CommentShape(show(HostNet(b)), show(n));
    if y.comment <= x.comment {
      FormerStaysOpen(show, a, b, n, next);
    } else {
      LatterTakesOver(x, y, next);
    }
  }

  lemma FormerStaysOpen(show: Show, a: Addr, b: Addr, n: Net, next: nat)
    requires a.family == b.family == n.ip.family && InNet(n.ip, n) && a != b
    requires var x, y := RouteItem(show, Some(a), n), RouteItem(show, Some(b), n);
             Writable([x]) && Writable([y]) && y.comment <= x.comment
    ensures var x, y, p := RouteItem(show, Some(a), n), RouteItem(show, Some(b), n), Packet(a, n.ip, Other, 0);
            Accepts(SyncTimes(SyncTimes(Chain([], next), [x], 1), [y], 1), p) && !ItemsWant([y], p)
  {
    var x, y, p := RouteItem(show, Some(a), n), RouteItem(show, Some(b), n), Packet(a, n.ip, Other, 0);
    OneItemIsExact(x, next);
    HostNetIsOneAddress(a, a);
    RevokedStaysOpen(SyncTimes(Chain([], next), [x], 1), [x], [y], x, y, Route(HostNet(a), n), Successes([y], 1), p);
    RouteItemWant(show, Some(b), n, p);
  }

  lemma LatterTakesOver(x: Item, y: Item, next: nat)
    requires Writable([x]) && Writable([y]) && |x.adds| <= 1 && !(y.comment <= x.comment)
    ensures forall p :: Accepts(SyncTimes(SyncTimes(Chain([], next), [x], 1), [y], 1), p) <==> ItemsWant([y], p)
  {
    var after := SyncTimes(SyncTimes(Chain([], next), [x], 1), [y], 1);
    LatterIsExact(x, y, next);
    forall p ensures Accepts(after, p) <==> ItemsWant([y], p) {
      ExactMeaning(after, [y], p);
    }
  }

  lemma LatterIsExact(x: Item, y: Item, next: nat)
    requires Writable([x]) && Writable([y]) && |x.adds| <= 1 && !(y.comment <= x.comment)
    ensures Exact(SyncTimes(SyncTimes(Chain([], next), [x], 1), [y], 1), [y])
  {
    OneItemIsExact(x, next);
    OneSyncSufficesIff([x], [y], 1);
    ChangeOverIff(SyncTimes(Chain([], next), [x], 1), [x], [y], Successes([y], 1));
  }
}
