/** The nested loops of `nftSync`, proved to be the enumeration of `FirewallConfig` run over the
    chain. */
module FirewallRun {
  import opened Nets
  import opened Comments
  import opened Firewall
  import opened FirewallConfig

  /** The chain in the kernel. Rules are added by commands that may fail at any time; deletions
      are queued and sent together. A `reliable` table fails only for commands it cannot read. */
  class NftChain {
    const reliable: bool
    var rules: seq<Rule>
    var nextHandle: nat
    var queued: set<nat>

    constructor (reliable: bool, rules: seq<Rule>, nextHandle: nat)
      ensures this.reliable == reliable && this.rules == rules && this.nextHandle == nextHandle && queued == {}
    {
      this.reliable := reliable;
      this.rules, this.nextHandle, queued := rules, nextHandle, {};
    }

    ghost function State(ruleMap: RuleMap): Sync
      reads this
    {
      Sync(Chain(rules, nextHandle), ruleMap)
    }

    method AddRule(meaning: Option<Match>, comment: string) returns (ok: bool)
      modifies this`rules, this`nextHandle
      ensures meaning.None? ==> !ok
      ensures meaning.Some? && reliable ==> ok
      ensures ok ==> Chain(rules, nextHandle) == AddRules(Chain(old(rules), old(nextHandle)), comment, [meaning.value])
      ensures !ok ==> rules == old(rules) && nextHandle == old(nextHandle)
    {
      var works := *;
      ok := meaning.Some? && (reliable || works);
      if ok {
        rules := rules + [Rule(nextHandle, UserData(comment), meaning.value)];
        nextHandle := nextHandle + 1;
      }
    }

    method DelRule(handle: nat)
      modifies this`queued
      ensures queued == old(queued) + {handle}
    {
      queued := queued + {handle};
    }

    method Flush() returns (ok: bool)
      modifies this`rules, this`queued
      ensures queued == {} && (reliable ==> ok)
      ensures rules == if ok then Delete(old(rules), old(queued)) else old(rules)
    {
      var works := *;
      ok := reliable || works;
      if ok {
        rules := Delete(rules, queued);
      }
      queued := {};
    }
  }

  // ---------------------------------------------------------------- running items in pieces

  ghost predicate Ran(before: Sync, items: seq<Item>, done: seq<nat>, after: Sync, reliable: bool) {
    && Outcomes(items, done) && after == RunItems(before, items, done)
    && (reliable ==> done == AllDone(items))
  }

  lemma {:induction false} RunConcat(s: Sync, a: seq<Item>, da: seq<nat>, b: seq<Item>, db: seq<nat>)
    requires Outcomes(a, da) && Outcomes(b, db)
    ensures Outcomes(a + b, da + db)
    ensures RunItems(s, a + b, da + db) == RunItems(RunItems(s, a, da), b, db)
  {
    if b == [] {
      assert a + b == a && da + db == da;
    } else {
      var n := |b| - 1;
      RunConcat(s, a, da, b[..n], db[..n]);
      RunSnoc(s, a + b[..n], da + db[..n], b[n], db[n]);
      assert (a + b[..n]) + [b[n]] == a + b && (da + db[..n]) + [db[n]] == da + db;
    }
  }

  lemma RunSnoc(s: Sync, a: seq<Item>, da: seq<nat>, it: Item, done: nat)
    requires Outcomes(a, da) && done <= |it.adds|
    ensures Outcomes(a + [it], da + [done])
    ensures RunItems(s, a + [it], da + [done]) == ItemStep(RunItems(s, a, da), it, done)
  {
    assert (a + [it])[..|a|] == a && (da + [done])[..|a|] == da;
  }

  lemma RanConcat(s: Sync, a: seq<Item>, da: seq<nat>, t: Sync, b: seq<Item>, db: seq<nat>, u: Sync, reliable: bool)
    requires Ran(s, a, da, t, reliable) && Ran(t, b, db, u, reliable)
    ensures Ran(s, a + b, da + db, u, reliable)
  {
    RunConcat(s, a, da, b, db);
    assert AllDone(a) + AllDone(b) == AllDone(a + b);
  }

  lemma RanOne(s: Sync, it: Item, done: nat, t: Sync, reliable: bool)
    requires done <= |it.adds| && t == ItemStep(s, it, done) && (reliable ==> done == |it.adds|)
    ensures Ran(s, [it], [done], t, reliable)
  {
    RunSnoc(s, [], [], it, done);
    assert [] + [it] == [it] && [] + [done] == [done];
    assert AllDone([it])[0] == |it.adds|;
  }

  // ---------------------------------------------------------------- the loops

  /** The search loop: every entry whose user data contains the comment leaves the map. */
  method Claim(ruleMap: RuleMap, comment: string) returns (left: RuleMap, exists_: bool)
    ensures left == ruleMap - Recognised(ruleMap, comment)
    ensures exists_ <==> Recognised(ruleMap, comment) != {}
  {
    left, exists_ := ruleMap, false;
    var todo := ruleMap.Keys;
    while todo != {}
      invariant todo <= ruleMap.Keys
      invariant left == map u | u in ruleMap && (u in todo || !Contains(u, comment)) :: ruleMap[u]
      invariant exists_ <==> Recognised(ruleMap, comment) - todo != {}
      decreases todo
    {
      var ud :| ud in todo;
      var found := Find(ud, comment);
      if found {
        left := left - {ud};
        exists_ := true;
      }
      assert found ==> ud in Recognised(ruleMap, comment) - (todo - {ud});
      assert !found ==> Recognised(ruleMap, comment) - (todo - {ud}) == Recognised(ruleMap, comment) - todo;
      todo := todo - {ud};
    }
    assert Recognised(ruleMap, comment) - {} == Recognised(ruleMap, comment);
  }

  /** `strings.Contains`. */
  method Find(s: string, t: string) returns (found: bool)
    ensures found <==> Contains(s, t)
  {
    for i := 0 to |s| + 1
      invariant forall j :: 0 <= j < i ==> !OccursAt(s, t, j)
    {
      if OccursAt(s, t, i) {
        return true;
      }
    }
    return false;
  }

  method SyncPair(nft: NftChain, ruleMap: RuleMap, show: Show, src: Option<Addr>, dnet: Net)
    returns (left: RuleMap, ghost done: nat)
    modifies nft`rules, nft`nextHandle
    ensures Ran(old(nft.State(ruleMap)), [RouteItem(show, src, dnet)], [done], nft.State(left), nft.reliable)
  {
    var text := StripLoop(SourceText(show, src) + show(dnet));
    var comment := "r" + text;
    var exists_;
    left, exists_ := Claim(ruleMap, comment);
    done := 0;
    ghost var it := RouteItem(show, src, dnet);
    if exists_ {
      done := |it.adds|;
    } else if SourceIsV6(src) == dnet.ip.family.V6? {
      var ok := nft.AddRule(if src.None? then None else Some(Route(HostNet(src.value), dnet)), comment);
      if ok {
        done := 1;
      }
      assert ok ==> it.adds == it.adds[..1];
    }
    assert nft.State(left) == ItemStep(old(nft.State(ruleMap)), it, done);
    RanOne(old(nft.State(ruleMap)), it, done, nft.State(left), nft.reliable);
  }

  method SyncDns(env: Parsers, nft: NftChain, ruleMap: RuleMap, show: Show, src: Option<Addr>, server: string)
    returns (left: RuleMap, ghost done: nat)
    modifies nft`rules, nft`nextHandle
    requires SourceIsV6(src)
    ensures Ran(old(nft.State(ruleMap)), [DnsItem(env, show, src, server)], [done], nft.State(left), nft.reliable)
  {
    var text := StripLoop(SourceText(show, src) + server);
    var comment := "r" + text;
    var exists_;
    left, exists_ := Claim(ruleMap, comment);
    done := 0;
    ghost var it := DnsItem(env, show, src, server);
    ghost var chain := Chain(nft.rules, nft.nextHandle);
    if exists_ {
      done := |it.adds|;
    } else {
      var s := env.ip(server);
      var readable := src.Some? && s.Some? && s.value.family.V6?;
      var ok := nft.AddRule(if readable then Some(Dns(HostNet(src.value), s.value)) else None, comment);
      if ok {
        done := 1;
        assert it.adds[..1] == [it.adds[0]];
        ok := nft.AddRule(Some(Http(HostNet(src.value), s.value)), comment);
        if ok {
          done := 2;
          AddTwo(chain, comment, it.adds[0], it.adds[1]);
          assert it.adds[..2] == [it.adds[0], it.adds[1]];
        }
      } else {
        assert it.adds[..0] == [];
        assert AddRules(chain, comment, []) == chain;
      }
    }
    assert nft.State(left) == ItemStep(old(nft.State(ruleMap)), it, done);
    RanOne(old(nft.State(ruleMap)), it, done, nft.State(left), nft.reliable);
  }

  lemma AddTwo(chain: Chain, comment: string, a: Match, b: Match)
    ensures AddRules(AddRules(chain, comment, [a]), comment, [b]) == AddRules(chain, comment, [a, b])
  {
  }

  method SyncNets(nft: NftChain, ruleMap: RuleMap, show: Show, src: Option<Addr>, nets: seq<Net>)
    returns (left: RuleMap, ghost done: seq<nat>)
    modifies nft`rules, nft`nextHandle
    ensures Ran(old(nft.State(ruleMap)), NetItems(show, src, nets), done, nft.State(left), nft.reliable)
  {
    left, done := ruleMap, [];
    for j := 0 to |nets|
      invariant Ran(old(nft.State(ruleMap)), NetItems(show, src, nets[..j]), done, nft.State(left), nft.reliable)
    {
      assert nets[..j + 1][..j] == nets[..j];
      ghost var s, one := nft.State(left), 0;
      left, one := SyncPair(nft, left, show, src, nets[j]);
      RanConcat(old(nft.State(ruleMap)), NetItems(show, src, nets[..j]), done, s,
                [RouteItem(show, src, nets[j])], [one], nft.State(left), nft.reliable);
      done := done + [one];
    }
    assert nets[..|nets|] == nets;
  }

  method SyncNames(nft: NftChain, ruleMap: RuleMap, show: Show, src: Option<Addr>, byName: map<string, seq<Net>>,
                   names: seq<string>)
    returns (left: RuleMap, ghost done: seq<nat>)
    modifies nft`rules, nft`nextHandle
    ensures Ran(old(nft.State(ruleMap)), NameItems(show, src, byName, names), done, nft.State(left), nft.reliable)
  {
    left, done := ruleMap, [];
    for i := 0 to |names|
      invariant Ran(old(nft.State(ruleMap)), NameItems(show, src, byName, names[..i]), done,
                    nft.State(left), nft.reliable)
    {
      assert names[..i + 1][..i] == names[..i];
      ghost var s, part := nft.State(left), [];
      var nets := NetsOf(byName, names[i]);
      left, part := SyncNets(nft, left, show, src, nets);
      RanConcat(old(nft.State(ruleMap)), NameItems(show, src, byName, names[..i]), done, s,
                NetItems(show, src, nets), part, nft.State(left), nft.reliable);
      done := done + part;
    }
    assert names[..|names|] == names;
  }

  method SyncAddr(env: Parsers, nft: NftChain, ruleMap: RuleMap, show: Show, byName: map<string, seq<Net>>,
                  peer: AccessPeer, addr: string)
    returns (left: RuleMap, ghost done: seq<nat>)
    requires peer.status.Some?
    modifies nft`rules, nft`nextHandle
    ensures Ran(old(nft.State(ruleMap)), AddrItems(env, show, byName, peer, addr), done, nft.State(left), nft.reliable)
  {
    var src := env.ip(addr);
    var names, dns := peer.spec.accessRules, peer.status.value.dns;
    left, done := SyncNames(nft, ruleMap, show, src, byName, names);
    ghost var named := NameItems(show, src, byName, names);
    if SourceIsV6(src) && |dns| > 0 {
      ghost var s, one := nft.State(left), 0;
      left, one := SyncDns(env, nft, left, show, src, dns[0]);
      RanConcat(old(nft.State(ruleMap)), named, done, s, [DnsItem(env, show, src, dns[0])], [one],
                nft.State(left), nft.reliable);
      done := done + [one];
    } else {
      assert named + [] == named;
    }
  }

  method SyncPeer(env: Parsers, nft: NftChain, ruleMap: RuleMap, show: Show, byName: map<string, seq<Net>>,
                  peer: AccessPeer)
    returns (left: RuleMap, ghost done: seq<nat>)
    modifies nft`rules, nft`nextHandle
    ensures Ran(old(nft.State(ruleMap)), PeerItems(env, show, byName, peer), done, nft.State(left), nft.reliable)
  {
    left, done := ruleMap, [];
    if peer.status.None? {
      return;
    }
    var addrs := Addresses(peer.status.value);
    for j := 0 to |addrs|
      invariant Ran(old(nft.State(ruleMap)), AddrsItems(env, show, byName, peer, addrs[..j]), done,
                    nft.State(left), nft.reliable)
    {
      assert addrs[..j + 1][..j] == addrs[..j];
      ghost var s, part := nft.State(left), [];
      left, part := SyncAddr(env, nft, left, show, byName, peer, addrs[j]);
      RanConcat(old(nft.State(ruleMap)), AddrsItems(env, show, byName, peer, addrs[..j]), done, s,
                AddrItems(env, show, byName, peer, addrs[j]), part, nft.State(left), nft.reliable);
      done := done + part;
    }
    assert addrs[..|addrs|] == addrs;
  }

  method SyncPeers(env: Parsers, nft: NftChain, ruleMap: RuleMap, show: Show, byName: map<string, seq<Net>>,
                   peers: seq<AccessPeer>)
    returns (left: RuleMap, ghost done: seq<nat>)
    modifies nft`rules, nft`nextHandle
    ensures Ran(old(nft.State(ruleMap)), PeersItems(env, show, byName, peers), done, nft.State(left), nft.reliable)
  {
    left, done := ruleMap, [];
    for i := 0 to |peers|
      invariant Ran(old(nft.State(ruleMap)), PeersItems(env, show, byName, peers[..i]), done,
                    nft.State(left), nft.reliable)
    {
      assert peers[..i + 1][..i] == peers[..i];
      ghost var s, part := nft.State(left), [];
      left, part := SyncPeer(env, nft, left, show, byName, peers[i]);
      RanConcat(old(nft.State(ruleMap)), PeersItems(env, show, byName, peers[..i]), done, s,
                PeerItems(env, show, byName, peers[i]), part, nft.State(left), nft.reliable);
      done := done + part;
    }
    assert peers[..|peers|] == peers;
  }

  method ReadDestinations(env: Parsers, rules: seq<AccessRule>) returns (byName: map<string, seq<Net>>)
    ensures byName == DestinationsByName(env, rules)
  {
    byName := map[];
    for i := 0 to |rules|
      invariant byName == DestinationsByName(env, rules[..i])
    {
      assert rules[..i + 1][..i] == rules[..i];
      var nets: seq<Net> := [];
      var ds := rules[i].destinations;
      for j := 0 to |ds|
        invariant nets == ParsedNets(env, ds[..j])
      {
        assert ds[..j + 1][..j] == ds[..j];
        var n := env.cidr(ds[j]);
        if n.None? {
          continue;
        }
        nets := nets + [n.value];
      }
      assert ds[..|ds|] == ds;
      byName := byName[rules[i].name := nets];
    }
    assert rules[..|rules|] == rules;
  }

  method IndexRules(rules: seq<Rule>) returns (ruleMap: RuleMap)
    ensures ruleMap == RuleMapOf(rules)
  {
    ruleMap := map[];
    for i := 0 to |rules|
      invariant ruleMap == RuleMapOf(rules[..i])
    {
      assert rules[..i + 1][..i] == rules[..i];
      ruleMap := ruleMap[rules[i].userData := rules[i]];
    }
    assert rules[..|rules|] == rules;
  }

  /** The whole sync: the chain becomes what `SyncChain` says for the enumeration of the
      configuration, whatever commands fail; if the final flush fails nothing is deleted. */
  method NftSync(env: Parsers, show: Show, config: Config, nft: NftChain) returns (flushed: bool, ghost done: seq<nat>)
    requires nft.queued == {}
    modifies nft
    ensures nft.queued == {}
    ensures Outcomes(ConfigItems(env, show, config), done)
    ensures nft.reliable ==> flushed && done == AllDone(ConfigItems(env, show, config))
    ensures flushed ==> Chain(nft.rules, nft.nextHandle) ==
                        SyncChain(old(Chain(nft.rules, nft.nextHandle)), ConfigItems(env, show, config), done)
    ensures !flushed ==> Chain(nft.rules, nft.nextHandle) ==
                         RunItems(old(nft.State(RuleMapOf(nft.rules))), ConfigItems(env, show, config), done).chain
  {
    var byName := ReadDestinations(env, config.rules);
    var ruleMap := IndexRules(nft.rules);
    var left;
    left, done := SyncPeers(env, nft, ruleMap, show, byName, config.peers);
    var stale := left.Keys;
    while stale != {}
      invariant stale <= left.Keys
      invariant nft.queued == set u | u in left && u !in stale :: left[u].handle
      invariant nft.State(left) == RunItems(old(nft.State(RuleMapOf(nft.rules))), ConfigItems(env, show, config), done)
      decreases stale
    {
      var ud :| ud in stale;
      nft.DelRule(left[ud].handle);
      stale := stale - {ud};
    }
    assert nft.queued == HandlesOf(left);
    flushed := nft.Flush();
  }
}
