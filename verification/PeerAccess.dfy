/** The two halves of a sync together: the device says from which peer a packet may come, the chain
    whether it may pass. What gets through from the holder of a key is what the peer with that key is
    permitted, under an exact condition on the configuration. */
module PeerAccess {
  import opened Nets
  import opened Device
  import opened PeerSync
  import opened PeerSyncTheorems
  import opened Firewall
  import opened FirewallConfig
  import ConcurrentSync
  import FirewallHistory

  // ---------------------------------------------------------------- who may send what

  /** Cryptokey routing accepts a packet from the peer that holds its source; all allowed IPs the
      operator sets are networks of one address. */
  ghost predicate GetsThrough(d: Peers, chain: Chain, k: Key, p: Packet) {
    Holds(d, k, HostNet(p.src)) && Accepts(chain, p)
  }

  /** The peer that decides the entry of the key permits the packet. */
  ghost predicate KeyPermits(env: Parsers, config: Config, k: Key, p: Packet) {
    exists i, addr :: LastAsker(env, config.peers, k, i) && PeerPermits(env, config.rules, config.peers[i], addr, p)
  }

  /** From each key exactly the packets get through that its peer is permitted. */
  ghost predicate Serves(env: Parsers, config: Config, d: Peers, chain: Chain) {
    forall k, p :: GetsThrough(d, chain, k, p) <==> KeyPermits(env, config, k, p)
  }

  ghost predicate MeansConfig(env: Parsers, config: Config, chain: Chain) {
    forall p :: Accepts(chain, p) <==> ConfigPermits(env, config, p)
  }

  ghost predicate Asks(env: Parsers, config: Config, k: Key, a: Addr) {
    var want := DesiredPeers(env, config.peers);
    k in want && HostNet(a) in want[k].allowed
  }

  /** If packets from an address are permitted to anyone, they are to each key that asks for the
      address, and only one key does. */
  ghost predicate Separate(env: Parsers, config: Config) {
    forall k, p :: ConfigPermits(env, config, p) && Asks(env, config, k, p.src) ==>
      KeyPermits(env, config, k, p) && forall j :: Asks(env, config, j, p.src) ==> j == k
  }

  ghost predicate Lists(env: Parsers, peer: AccessPeer, a: Addr) {
    peer.status.Some? && exists addr :: addr in Addresses(peer.status.value) && env.ip(addr) == Some(a)
  }

  lemma {:induction false} AllowedIPsAre(env: Parsers, addrs: seq<string>, a: Addr)
    ensures HostNet(a) in AllowedIPs(env, addrs) <==> exists addr :: addr in addrs && env.ip(addr) == Some(a)
  {
    if addrs != [] {
      var init, last := addrs[..|addrs| - 1], addrs[|addrs| - 1];
      assert addrs == init + [last];
      AllowedIPsAre(env, init, a);
    }
  }

  /** A key asks for an address exactly if its last asker lists it. */
  lemma LastAskerLists(env: Parsers, config: Config, k: Key, i: int, a: Addr)
    requires LastAsker(env, config.peers, k, i)
    ensures Asks(env, config, k, a) <==> Lists(env, config.peers[i], a)
  {
    LastAskerDecides(env, config.peers, k, i);
    AllowedIPsAre(env, Addresses(config.peers[i].status.value), a);
  }

  lemma KeyPermitsMeans(env: Parsers, config: Config, k: Key, p: Packet)
    requires KeyPermits(env, config, k, p)
    ensures Asks(env, config, k, p.src) && ConfigPermits(env, config, p)
  {
    var i, addr :| LastAsker(env, config.peers, k, i) && PeerPermits(env, config.rules, config.peers[i], addr, p);
    LastAskerLists(env, config, k, i, p.src);
    assert config.peers[i] in config.peers;
  }

  // ---------------------------------------------------------------- the exact condition

  lemma SeparateServes(env: Parsers, config: Config, d: Peers, chain: Chain)
    requires Converged(d, DesiredPeers(env, config.peers)) && MeansConfig(env, config, chain)
    requires Separate(env, config)
    ensures Serves(env, config, d, chain)
  {
    var want := DesiredPeers(env, config.peers);
    ConvergedMeans(d, want);
    forall k, p ensures GetsThrough(d, chain, k, p) <==> KeyPermits(env, config, k, p) {
      if GetsThrough(d, chain, k, p) {
        assert Asks(env, config, k, p.src);
      }
      if KeyPermits(env, config, k, p) {
        KeyPermitsMeans(env, config, k, p);
        assert HeldByWanter(d, want, HostNet(p.src));
        var h :| Holds(d, h, HostNet(p.src)) && h in want && HostNet(p.src) in want[h].allowed;
        assert Asks(env, config, h, p.src);
      }
    }
  }

  /** The entries of the given keys, in some order. */
  lemma {:induction false} EntriesOf(want: Desired, keys: set<Key>) returns (config: seq<PeerConfig>)
    requires WellFormed(want) && keys <= want.Keys
    ensures forall i :: 0 <= i < |config| ==> config[i].publicKey in keys && config[i] == want[config[i].publicKey]
    ensures forall i, j :: 0 <= i < j < |config| ==> config[i].publicKey != config[j].publicKey
    ensures forall k :: k in keys ==> HasEntry(config, k)
    decreases |keys|
  {
    config := [];
    if keys != {} {
      var k :| k in keys;
      var rest := EntriesOf(want, keys - {k});
      config := rest + [want[k]];
      assert config[|rest|] == want[k];
      forall j | j in keys && j != k ensures HasEntry(config, j) {
        assert HasEntry(rest, j);
        var i :| 0 <= i < |rest| && rest[i].publicKey == j;
        assert config[i].publicKey == j;
      }
    }
  }

  /** A sync can end with any key holding all its addresses: its entry is sent last. */
  lemma HolderOfChoice(want: Desired, k: Key) returns (d: Peers)
    requires WellFormed(want) && k in want
    ensures Converged(d, want) && Exclusive(d) && forall n :: n in want[k].allowed ==> Holds(d, k, n)
  {
    var none: Peers := map[];
    var init := EntriesOf(want, want.Keys - {k});
    var config := init + [want[k]];
    assert config[..|init|] == init && config[|init|] == want[k];
    forall j | j in want ensures HasEntry(config, j) {
      if j != k {
        assert HasEntry(init, j);
        var i :| 0 <= i < |init| && init[i].publicKey == j;
        assert config[i].publicKey == j;
      }
    }
    d := ApplyAll(none, config);
    SyncConvergesInAnyOrder(none, want, config);
    SetPeerEffect(ApplyAll(none, init), want[k]);
  }

  /** On every device that a sync may leave, and with a chain that means the configuration: from each
      key exactly the packets get through that its peer is permitted, if and only if the configuration
      is separate. */
  lemma AccessIsRightIff(env: Parsers, config: Config, chain: Chain)
    requires MeansConfig(env, config, chain)
    ensures Separate(env, config) <==>
            forall d :: Converged(d, DesiredPeers(env, config.peers)) && Exclusive(d) ==> Serves(env, config, d, chain)
  {
    var want := DesiredPeers(env, config.peers);
    if Separate(env, config) {
      forall d | Converged(d, want) && Exclusive(d) ensures Serves(env, config, d, chain) {
        SeparateServes(env, config, d, chain);
      }
    }
    if forall d :: Converged(d, want) && Exclusive(d) ==> Serves(env, config, d, chain) {
      DesiredIsWellFormed(env, config.peers);
      forall k, p | ConfigPermits(env, config, p) && Asks(env, config, k, p.src)
        ensures KeyPermits(env, config, k, p) && forall j :: Asks(env, config, j, p.src) ==> j == k
      {
        AskerIsServed(env, config, chain, k, p);
        forall j | Asks(env, config, j, p.src) ensures j == k {
          AskerIsServed(env, config, chain, j, p);
          var d := HolderOfChoice(want, k);
          assert Holds(d, k, HostNet(p.src));
          assert GetsThrough(d, chain, j, p);
        }
      }
    }
  }

  lemma AskerIsServed(env: Parsers, config: Config, chain: Chain, k: Key, p: Packet)
    requires MeansConfig(env, config, chain) && ConfigPermits(env, config, p) && Asks(env, config, k, p.src)
    requires forall d :: Converged(d, DesiredPeers(env, config.peers)) && Exclusive(d) ==> Serves(env, config, d, chain)
    ensures KeyPermits(env, config, k, p)
  {
    DesiredIsWellFormed(env, config.peers);
    var d := HolderOfChoice(DesiredPeers(env, config.peers), k);
    assert GetsThrough(d, chain, k, p);
  }

  /** Enough for it: no address is listed by two peers, readable keys or not. */
  lemma OneListingIsSeparate(env: Parsers, config: Config)
    requires forall i, j, a | 0 <= i < |config.peers| && 0 <= j < |config.peers| ::
               Lists(env, config.peers[i], a) && Lists(env, config.peers[j], a) ==> i == j
    ensures Separate(env, config)
  {
    forall k, p | ConfigPermits(env, config, p) && Asks(env, config, k, p.src)
      ensures KeyPermits(env, config, k, p) && forall j :: Asks(env, config, j, p.src) ==> j == k
    {
      var peer, addr :| peer in config.peers && PeerPermits(env, config.rules, peer, addr, p);
      var l :| 0 <= l < |config.peers| && config.peers[l] == peer;
      assert Lists(env, config.peers[l], p.src);
      forall j | Asks(env, config, j, p.src) ensures LastAsker(env, config.peers, j, l) {
        var i := DesiredHasLastAsker(env, config.peers, j);
        LastAskerLists(env, config, j, i, p.src);
      }
      assert AsksFor(env, config.peers[l], k);
    }
  }

  /** That no address is asked for twice is not enough: a peer whose key is unreadable gets no entry,
      but its rules are written, and whoever holds its address may use them. */
  lemma UnreadableKeyLendsAccess(env: Parsers, pub: string, bad: string, addr: string, dest: string,
                                 k: Key, n: Net, p: Packet)
    requires env.key(pub) == Some(k) && env.key(bad) == None && env.ip(addr) == Some(p.src)
    requires env.cidr(dest) == Some(n) && InNet(p.dst, n) && n.ip.family == p.src.family
    ensures var status := Some(PeerStatus("", [addr], []));
            var config := Config([AccessRule("rule", [dest])],
                                 [AccessPeer("a", PeerSpec("", pub, []), status),
                                  AccessPeer("b", PeerSpec("", bad, ["rule"]), status)]);
            && Clean(DesiredPeers(env, config.peers)) && ConfigPermits(env, config, p)
            && Asks(env, config, k, p.src) && !KeyPermits(env, config, k, p)
  {
    var status := Some(PeerStatus("", [addr], []));
    var a, b := AccessPeer("a", PeerSpec("", pub, []), status), AccessPeer("b", PeerSpec("", bad, ["rule"]), status);
    var config := Config([AccessRule("rule", [dest])], [a, b]);
    assert config.peers[..1] == [a] && [a][..0] == [];
    assert AllowedIPs(env, [addr][..0]) == [] && AllowedIPs(env, [addr]) == [HostNet(p.src)];
    assert EntryOf(env, a) == Some(ConfigEntry(NO_PSK, k, [HostNet(p.src)]));
    assert DesiredPeers(env, [a]) == map[k := ConfigEntry(NO_PSK, k, [HostNet(p.src)])];
    assert LastRule(config.rules, "rule", 0);
    assert DestinationOf(env, config.rules, "rule", n);
    assert PeerPermits(env, config.rules, config.peers[1], addr, p);
    forall i | LastAsker(env, config.peers, k, i) ensures i == 0 {
    }
  }

  // ---------------------------------------------------------------- after whole histories

  function PeerLists(configs: seq<Config>): seq<seq<AccessPeer>> {
    seq(|configs|, i requires 0 <= i < |configs| => configs[i].peers)
  }

  /** From the first start on: a device with any history of syncs of changing configurations, the last
      of them complete, and a chain all of whose changes fitted and were synced sufficiently. From each
      key exactly the packets get through that the latest configuration permits its peer, if that
      configuration is separate. */
  lemma AccessAfterHistory(env: Parsers, show: Show, configs: seq<Config>, entries: seq<seq<PeerConfig>>,
                           sent: seq<nat>, ds: seq<Peers>, outs: seq<seq<seq<nat>>>, next: nat)
    requires |configs| == |outs| > 0 && Separate(env, configs[|configs| - 1])
    requires ConcurrentSync.History(env, PeerLists(configs), entries, sent, ds)
    requires sent[|configs| - 1] == |entries[|configs| - 1]|
    requires FirewallHistory.GoodHistory(FirewallHistory.Stages(env, show, configs, outs))
    ensures var stages := FirewallHistory.Stages(env, show, configs, outs);
            FirewallHistory.AllFit(stages) ==>
              Serves(env, configs[|configs| - 1], ds[|configs|], FirewallHistory.ChainAfter(stages, next))
  {
    var n, stages := |configs|, FirewallHistory.Stages(env, show, configs, outs);
    if FirewallHistory.AllFit(stages) {
      ConcurrentSync.DeviceHistory(env, PeerLists(configs), entries, sent, ds, n);
      forall p {
        FirewallHistory.HistoryMeaning(env, show, configs, outs, next, p);
      }
      SeparateServes(env, configs[n - 1], ds[n], FirewallHistory.ChainAfter(stages, next));
    }
  }
}
