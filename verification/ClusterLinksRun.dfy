/** The loops of `wgcSync`, command by command, proved against `ClusterLinks`. */
module ClusterLinksRun {
  import opened Nets
  import opened Device
  import opened ClusterLinks

  /** The kernel with its library. Any command may fail at any time; a `reliable` kernel refuses only
      to create a link that exists and, unless it `deletesDefaults`, to delete a default route, which
      is listed without a destination. */
  class Kernel {
    const reliable: bool
    const deletesDefaults: bool
    var host: Host

    constructor (reliable: bool, deletesDefaults: bool, host: Host)
      ensures this.reliable == reliable && this.deletesDefaults == deletesDefaults && this.host == host
    {
      this.reliable, this.deletesDefaults, this.host := reliable, deletesDefaults, host;
    }

    method LinkAdd(n: string) returns (ok: bool)
      modifies this
      ensures ok ==> n !in old(host.links)
      ensures reliable && n !in old(host.links) ==> ok
      ensures ok ==> host == old(host).(links := old(host.links)[n := NewLink()])
      ensures !ok ==> host == old(host)
    {
      var works := *;
      ok := n !in host.links && (reliable || works);
      if ok {
        host := host.(links := host.links[n := NewLink()]);
      }
    }

    /** The private key is set first, then the peers one by one; a failure leaves the rest as it was. */
    method ConfigureDevice(n: string, key: Key, config: seq<PeerConfig>) returns (ok: bool, applied: nat)
      requires n in host.links
      modifies this
      ensures applied <= |config| && (ok ==> applied == |config|) && (reliable ==> ok)
      ensures n in host.links && host == old(host).(links := old(host.links)[n := host.links[n]])
      ensures host.links[n] == old(host.links[n]).(key := host.links[n].key,
                                                   device := ApplyAll(old(host.links[n].device), config[..applied]))
      ensures ok || applied > 0 ==> host.links[n].key == key
      ensures !ok ==> host.links[n].key in {key, old(host.links[n].key)}
    {
      ok, applied := true, 0;
      var works := *;
      if !reliable && !works {
        return false, 0;
      }
      var device := host.links[n].device;
      while applied < |config| && ok
        invariant applied <= |config| && device == ApplyAll(host.links[n].device, config[..applied])
        invariant reliable ==> ok
        decreases |config| - applied, ok
      {
        works := *;
        ok := reliable || works;
        if ok {
          assert config[..applied + 1][..applied] == config[..applied];
          device := Apply(device, config[applied]);
          applied := applied + 1;
        }
      }
      host := host.(links := host.links[n := host.links[n].(key := key, device := device)]);
    }

    method LinkSetUp(n: string) returns (ok: bool)
      requires n in host.links
      modifies this
      ensures reliable ==> ok
      ensures host ==
              if ok then old(host).(links := old(host.links)[n := old(host.links[n]).(up := true)]) else old(host)
    {
      var works := *;
      ok := reliable || works;
      if ok {
        host := host.(links := host.links[n := host.links[n].(up := true)]);
      }
    }

    /** Adding an address also adds the kernel's own routes for it, where none exist. */
    method AddrReplace(env: Env, n: string, a: Net) returns (ok: bool)
      requires n in host.links
      modifies this
      ensures reliable ==> ok
      ensures host.links ==
              if ok then old(host.links)[n := old(host.links[n]).(addrs := old(host.links[n].addrs) + {a})]
              else old(host.links)
      ensures OthersSame(old(host.routes), host.routes, n)
      ensures PlainAddresses(env) ==> SameDefaults(old(host.routes), host.routes, n)
    {
      var works := *;
      ok := reliable || works;
      if ok {
        var auto := map d | d in env.connected(a) && d !in host.routes :: n;
        host := Host(host.links[n := host.links[n].(addrs := host.links[n].addrs + {a})], host.routes + auto);
      }
    }

    method AddrDel(env: Env, n: string, a: Net) returns (ok: bool)
      requires n in host.links
      modifies this
      ensures reliable ==> ok
      ensures host.links ==
              if ok then old(host.links)[n := old(host.links[n]).(addrs := old(host.links[n].addrs) - {a})]
              else old(host.links)
      ensures OthersSame(old(host.routes), host.routes, n)
      ensures PlainAddresses(env) ==> SameDefaults(old(host.routes), host.routes, n)
    {
      var works := *;
      ok := reliable || works;
      if ok {
        var left := map d | d in host.routes && !(host.routes[d] == n && d in env.connected(a)) :: host.routes[d];
        host := Host(host.links[n := host.links[n].(addrs := host.links[n].addrs - {a})], left);
      }
    }

    method RouteReplace(n: string, d: Net) returns (ok: bool)
      modifies this
      ensures reliable ==> ok
      ensures host == if ok then old(host).(routes := old(host.routes)[d := n]) else old(host)
    {
      var works := *;
      ok := reliable || works;
      if ok {
        host := host.(routes := host.routes[d := n]);
      }
    }

    method RouteDel(d: Net) returns (ok: bool)
      modifies this
      ensures reliable && (deletesDefaults || !IsDefault(d)) ==> ok
      ensures ok ==> deletesDefaults || !IsDefault(d)
      ensures host == if ok then old(host).(routes := old(host.routes) - {d}) else old(host)
    {
      var works := *;
      ok := (reliable || works) && (deletesDefaults || !IsDefault(d));
      if ok {
        host := host.(routes := host.routes - {d});
      }
    }

    method LinkDel(n: string) returns (ok: bool)
      modifies this
      ensures reliable ==> ok
      ensures host == if ok then DeleteLinks(old(host), {n}) else old(host)
    {
      var works := *;
      ok := reliable || works;
      if ok {
        host := DeleteLinks(host, {n});
      }
    }
  }

  /** The process-wide `WGConfig.Peers`, which only grows. */
  class Globals {
    var peers: seq<PeerConfig>

    constructor ()
      ensures peers == []
    {
      peers := [];
    }
  }

  /** The routes of all other links are the same. */
  ghost predicate OthersSame(before: map<Net, string>, after: map<Net, string>, n: string) {
    && (forall d :: d in before && before[d] != n ==> d in after && after[d] == before[d])
    && (forall d :: d in after && after[d] != n ==> d in before && after[d] == before[d])
  }

  /** The same default routes lead to the link. */
  ghost predicate SameDefaults(before: map<Net, string>, after: map<Net, string>, n: string) {
    forall d :: IsDefault(d) ==> (d in before && before[d] == n <==> d in after && after[d] == n)
  }

  ghost predicate OnlyLink(before: map<string, Link>, after: map<string, Link>, n: string) {
    after == before || (n in after && after == before[n := after[n]])
  }

  /** What a client may have changed, even if it failed half way: its own link, if that is a
      managed or a new one, and the routes it wants or had. */
  ghost predicate OnlyTouches(before: Host, after: Host, usable: bool, p: WgPeer) {
    if usable then
      && OnlyLink(before.links, after.links, IfName(p.name))
      && RoutesKept(before.routes, after.routes, IfName(p.name), p.routes)
    else after == before
  }

  method SyncAddrs(k: Kernel, env: Env, n: string, addr: Net) returns (ok: bool)
    requires n in k.host.links
    modifies k
    ensures k.reliable ==> ok
    ensures n in k.host.links && k.host.links == old(k.host.links)[n := k.host.links[n]]
    ensures k.host.links[n] == old(k.host.links[n]).(addrs := k.host.links[n].addrs)
    ensures ok ==> k.host.links[n].addrs == {addr}
    ensures OthersSame(old(k.host.routes), k.host.routes, n)
    ensures PlainAddresses(env) ==> SameDefaults(old(k.host.routes), k.host.routes, n)
  {
    ok := k.AddrReplace(env, n, addr);
    if !ok {
      return;
    }
    var listed := k.host.links[n].addrs;
    var todo := listed;
    while todo != {}
      invariant todo <= listed
      invariant n in k.host.links && k.host.links == old(k.host.links)[n := k.host.links[n]]
      invariant k.host.links[n] == old(k.host.links[n]).(addrs := k.host.links[n].addrs)
      invariant addr in k.host.links[n].addrs && k.host.links[n].addrs <= todo + {addr}
      invariant OthersSame(old(k.host.routes), k.host.routes, n)
      invariant PlainAddresses(env) ==> SameDefaults(old(k.host.routes), k.host.routes, n)
      decreases todo
    {
      var addr2 :| addr2 in todo;
      todo := todo - {addr2};
      if addr != addr2 {
        ok := k.AddrDel(env, n, addr2);
        if !ok {
          return;
        }
      }
    }
    ok := true;
  }

  /** A listed route is kept if its destination text is wanted; a default route has none. */
  predicate Stays(routes: map<Net, string>, n: string, wanted: seq<Net>, d: Net)
    requires d in routes
  {
    routes[d] != n || (d in wanted && !IsDefault(d))
  }

  method PlaceRoutes(k: Kernel, n: string, wanted: seq<Net>) returns (ok: bool)
    modifies k
    ensures k.reliable ==> ok
    ensures k.host.links == old(k.host.links)
    ensures ok ==> k.host.routes == Placed(old(k.host.routes), n, wanted)
    ensures RoutesKept(old(k.host.routes), k.host.routes, n, wanted)
  {
    for i := 0 to |wanted|
      invariant k.host == old(k.host).(routes := Placed(old(k.host.routes), n, wanted[..i]))
    {
      ok := k.RouteReplace(n, wanted[i]);
      if !ok {
        return;
      }
      PlacedSnoc(old(k.host.routes), n, wanted, i);
    }
    assert wanted[..|wanted|] == wanted;
    ok := true;
  }

  function Placed(routes: map<Net, string>, n: string, wanted: seq<Net>): map<Net, string> {
    routes + map d | d in wanted :: n
  }

  lemma PlacedSnoc(routes: map<Net, string>, n: string, wanted: seq<Net>, i: nat)
    requires i < |wanted|
    ensures Placed(routes, n, wanted[..i + 1]) == Placed(routes, n, wanted[..i])[wanted[i] := n]
  {
    assert wanted[..i + 1] == wanted[..i] + [wanted[i]];
  }

  /** Routes of other links that are not wanted are kept. */
  ghost predicate RoutesKept(before: map<Net, string>, after: map<Net, string>, n: string, wanted: seq<Net>) {
    forall d :: d in before && before[d] != n && d !in wanted ==> d in after && after[d] == before[d]
  }

  method IsUnwanted(has: Net, wanted: seq<Net>) returns (delete: bool)
    ensures delete <==> IsDefault(has) || has !in wanted
  {
    delete := true;
    for j := 0 to |wanted|
      invariant delete <==> IsDefault(has) || has !in wanted[..j]
    {
      if !IsDefault(has) && has == wanted[j] {
        delete := false;
      }
    }
    assert wanted[..|wanted|] == wanted;
  }

  /** The routes left once all listed routes of the link but `todo` were looked at. */
  function Remaining(routes: map<Net, string>, n: string, wanted: seq<Net>, todo: set<Net>): map<Net, string> {
    map d | d in routes && (d in todo || Stays(routes, n, wanted, d)) :: routes[d]
  }

  method RemoveRoutes(k: Kernel, n: string, wanted: seq<Net>) returns (ok: bool)
    modifies k
    ensures k.reliable && (k.deletesDefaults || NoDefaultOn(old(k.host.routes), n)) ==> ok
    ensures ok ==> k.deletesDefaults || NoDefaultOn(old(k.host.routes), n)
    ensures k.host.links == old(k.host.links)
    ensures ok ==> k.host.routes == Remaining(old(k.host.routes), n, wanted, {})
    ensures RoutesKept(old(k.host.routes), k.host.routes, n, wanted)
  {
    var todo := set d | d in k.host.routes && k.host.routes[d] == n;
    while todo != {}
      invariant forall d :: d in todo ==> d in old(k.host.routes) && old(k.host.routes[d]) == n
      invariant k.host == old(k.host).(routes := Remaining(old(k.host.routes), n, wanted, todo))
      invariant forall d :: d in old(k.host.routes) && old(k.host.routes[d]) == n && IsDefault(d) ==>
                  d in todo || k.deletesDefaults
      decreases todo
    {
      var has :| has in todo;
      todo := todo - {has};
      var delete := IsUnwanted(has, wanted);
      if delete {
        ok := k.RouteDel(has);
        if !ok {
          return;
        }
      }
    }
    ok := true;
  }

  method SyncRoutes(k: Kernel, n: string, wanted: seq<Net>) returns (ok: bool)
    modifies k
    ensures k.reliable && DefaultsFine(k.deletesDefaults, old(k.host.routes), n, wanted) ==> ok
    ensures ok ==> DefaultsFine(k.deletesDefaults, old(k.host.routes), n, wanted)
    ensures k.host.links == old(k.host.links)
    ensures ok ==> k.host.routes == StepRoutes(old(k.host.routes), n, wanted)
    ensures RoutesKept(old(k.host.routes), k.host.routes, n, wanted)
  {
    ok := PlaceRoutes(k, n, wanted);
    if ok {
      PlacedThenRemoved(old(k.host.routes), n, wanted);
      PlacedDefaults(old(k.host.routes), n, wanted);
      ok := RemoveRoutes(k, n, wanted);
    }
  }

  /** The deletion of a default route is not needed, or works. */
  predicate DefaultsFine(deletesDefaults: bool, routes: map<Net, string>, n: string, wanted: seq<Net>) {
    deletesDefaults || (NoDefaultOn(routes, n) && NoDefaultIn(wanted))
  }

  lemma PlacedDefaults(routes: map<Net, string>, n: string, wanted: seq<Net>)
    ensures NoDefaultOn(Placed(routes, n, wanted), n) <==> NoDefaultOn(routes, n) && NoDefaultIn(wanted)
  {
    var placed := Placed(routes, n, wanted);
    assert forall d :: d in wanted ==> d in placed && placed[d] == n;
    assert forall d :: d in routes && routes[d] == n ==> d in placed && placed[d] == n;
  }

  lemma PlacedThenRemoved(routes: map<Net, string>, n: string, wanted: seq<Net>)
    ensures Remaining(Placed(routes, n, wanted), n, wanted, {}) == StepRoutes(routes, n, wanted)
  {
  }

  // ---------------------------------------------------------------- one client

  /** The link is one of the managed ones, or can be created. */
  predicate Usable(links: map<string, Link>, existing: set<string>, n: string) {
    n in existing || n !in links
  }

  function NewLink(): Link {
    Link(WIREGUARD, false, {}, NO_PSK, map[])
  }

  function LinkOrNew(links: map<string, Link>, n: string): Link {
    if n in links then links[n] else NewLink()
  }

  method EnsureLink(k: Kernel, existing: set<string>, n: string) returns (ok: bool)
    requires existing <= k.host.links.Keys
    modifies k
    ensures ok ==> Usable(old(k.host.links), existing, n)
    ensures k.reliable && Usable(old(k.host.links), existing, n) ==> ok
    ensures k.host ==
            if ok then old(k.host).(links := old(k.host.links)[n := LinkOrNew(old(k.host.links), n)]) else old(k.host)
  {
    ok := true;
    if n !in existing {
      ok := k.LinkAdd(n);
    }
  }

  method ConfigureClient(k: Kernel, g: Globals, env: Env, n: string, p: WgPeer) returns (ok: bool)
    requires n in k.host.links
    modifies k, g
    ensures ok ==> env.endpoint(p.endpoint) && PskOf(env, p).Some? && g.peers == old(g.peers) + [ServerEntry(env, p)]
    ensures k.reliable && env.endpoint(p.endpoint) && PskOf(env, p).Some? ==> ok
    ensures n in k.host.links && k.host == old(k.host).(links := old(k.host.links)[n := k.host.links[n]])
    ensures ok ==> k.host.links[n] == old(k.host.links[n]).(up := true, key := p.privateKey,
                                                            device := ApplyAll(old(k.host.links[n].device), g.peers))
    ensures exists applied :: 0 <= applied <= |g.peers|
                              && k.host.links[n].device == ApplyAll(old(k.host.links[n].device), g.peers[..applied])
  {
    assert g.peers[..0] == [];
    if !env.endpoint(p.endpoint) {
      return false;
    }
    var psk := PskOf(env, p);
    if psk.None? {
      return false;
    }
    g.peers := g.peers + [ServerEntry(env, p)];
    var applied;
    ok, applied := k.ConfigureDevice(n, p.privateKey, g.peers);
    if ok {
      assert g.peers[..applied] == g.peers;
      ok := k.LinkSetUp(n);
    }
  }

  function FullMask(a: Addr): nat {
    if a.family.V4? then 32 else 128
  }

  method AddressClient(k: Kernel, env: Env, n: string, p: WgPeer) returns (ok: bool)
    requires n in k.host.links
    modifies k
    ensures ok ==> LinkAddr(env, p.address).Some?
    ensures k.reliable && LinkAddr(env, p.address).Some? ==> ok
    ensures n in k.host.links && k.host.links == old(k.host.links)[n := k.host.links[n]]
    ensures ok ==> k.host.links[n] == old(k.host.links[n]).(addrs := {LinkAddr(env, p.address).value})
    ensures ok ==> HasAddress(env, p.address, k.host.links[n].addrs)
    ensures OthersSame(old(k.host.routes), k.host.routes, n)
    ensures PlainAddresses(env) ==> SameDefaults(old(k.host.routes), k.host.routes, n)
  {
    var addr;
    var ip := env.parsers.ip(p.address);
    if ip.Some? {
      addr := Net(ip.value, FullMask(ip.value));
    } else {
      var prefixed := env.prefixed(p.address);
      if prefixed.None? {
        return false;
      }
      addr := prefixed.value;
    }
    ok := SyncAddrs(k, env, n, addr);
  }

  /** The link of a client, up to its address. */
  method SyncLink(k: Kernel, g: Globals, env: Env, existing: set<string>, p: WgPeer) returns (ok: bool)
    requires existing <= k.host.links.Keys
    modifies k, g
    ensures ok ==> Readable(env, p) && Usable(old(k.host.links), existing, IfName(p.name))
    ensures k.reliable && Readable(env, p) && Usable(old(k.host.links), existing, IfName(p.name)) ==> ok
    ensures ok ==> g.peers == old(g.peers) + [ServerEntry(env, p)]
    ensures ok ==> k.host.links ==
                   old(k.host.links)[IfName(p.name) := ConfiguredLink(env, old(k.host.links), g.peers, p)]
    ensures if Usable(old(k.host.links), existing, IfName(p.name))
            then && OnlyLink(old(k.host.links), k.host.links, IfName(p.name))
                 && OthersSame(old(k.host.routes), k.host.routes, IfName(p.name))
            else k.host == old(k.host)
    ensures PlainAddresses(env) ==> SameDefaults(old(k.host.routes), k.host.routes, IfName(p.name))
  {
    var n := IfName(p.name);
    ok := EnsureLink(k, existing, n);
    if ok {
      ok := ConfigureClient(k, g, env, n, p);
      if ok {
        ok := AddressClient(k, env, n, p);
      }
    }
  }

  method SyncClient(k: Kernel, g: Globals, env: Env, existing: set<string>, p: WgPeer)
    returns (ok: bool, left: set<string>)
    requires existing <= k.host.links.Keys
    modifies k, g
    ensures left == existing - {IfName(p.name)}
    ensures ok ==> Readable(env, p) && Usable(old(k.host.links), existing, IfName(p.name))
    ensures ok && PlainAddresses(env) ==>
              DefaultsFine(k.deletesDefaults, old(k.host.routes), IfName(p.name), p.routes)
    ensures (k.reliable && Readable(env, p) && Usable(old(k.host.links), existing, IfName(p.name))
             && (k.deletesDefaults || PlainAddresses(env))
             && DefaultsFine(k.deletesDefaults, old(k.host.routes), IfName(p.name), p.routes)) ==> ok
    ensures ok ==> g.peers == old(g.peers) + [ServerEntry(env, p)]
    ensures ok ==> k.host.links ==
                   old(k.host.links)[IfName(p.name) := ConfiguredLink(env, old(k.host.links), g.peers, p)]
    ensures ok ==> k.host.routes == StepRoutes(old(k.host.routes), IfName(p.name), p.routes)
    ensures OnlyTouches(old(k.host), k.host, old(Usable(k.host.links, existing, IfName(p.name))), p)
  {
    var n := IfName(p.name);
    left := existing - {n};
    ghost var start := k.host;
    ok := SyncLink(k, g, env, existing, p);
    if !ok {
      return;
    }
    SameStep(start.routes, k.host.routes, n, p.routes);
    SameDefaultsFine(start.routes, k.host.routes, n);
    SameKept(start.routes, k.host.routes, n, p.routes);
    ok := SyncRoutes(k, n, p.routes);
  }

  /** The link of a client keeps its kind and gets everything else. */
  function ConfiguredLink(env: Env, links: map<string, Link>, peers: seq<PeerConfig>, p: WgPeer): Link {
    ClientLink(env, p, ApplyAll(DeviceOf(links, IfName(p.name)), peers)).(kind := LinkOrNew(links, IfName(p.name)).kind)
  }

  lemma SameDefaultsFine(a: map<Net, string>, b: map<Net, string>, n: string)
    ensures SameDefaults(a, b, n) ==> (NoDefaultOn(a, n) <==> NoDefaultOn(b, n))
  {
  }

  lemma SameStep(a: map<Net, string>, b: map<Net, string>, n: string, wanted: seq<Net>)
    requires OthersSame(a, b, n)
    ensures StepRoutes(a, n, wanted) == StepRoutes(b, n, wanted)
  {
  }

  lemma SameKept(a: map<Net, string>, b: map<Net, string>, n: string, wanted: seq<Net>)
    requires OthersSame(a, b, n)
    ensures RoutesKept(a, b, n, wanted)
    ensures forall c :: RoutesKept(b, c, n, wanted) ==> RoutesKept(a, c, n, wanted)
  {
  }

  // ---------------------------------------------------------------- all clients

  /** Links that are not managed are untouched, and so are their routes that no client wants. */
  ghost predicate ForeignKept(before: Host, after: Host, peers: seq<WgPeer>) {
    && (forall n :: Foreign(before.links, n) ==> n in after.links && after.links[n] == before.links[n])
    && (forall d :: d in before.routes && Foreign(before.links, before.routes[d]) && !Wanted(peers, d)
                    ==> d in after.routes && after.routes[d] == before.routes[d])
  }

  /** The state before client `i`, if the sync got that far. */
  ghost predicate Reached(env: Env, start: Host, global: seq<PeerConfig>, peers: seq<WgPeer>, i: nat, host: Host)
    requires i <= |peers|
  {
    && Syncable(env, start, peers[..i])
    && host.links == LinksAfter(env, start.links, global, peers[..i])
    && host.routes == RoutesAfter(start.routes, peers[..i])
    && ForeignKept(start, host, peers)
  }

  /** One round of the loop over the clients. */
  method ClientStep(k: Kernel, g: Globals, env: Env, existing: set<string>, peers: seq<WgPeer>, i: nat,
                    ghost start: Host, ghost global: seq<PeerConfig>) returns (ok: bool, left: set<string>)
    requires i < |peers| && Reached(env, start, global, peers, i, k.host)
    requires existing == Leftovers(start, peers[..i]) && g.peers == global + Entries(env, peers[..i])
    requires PlainAddresses(env) ==> k.deletesDefaults || DefaultsOut(start.routes, peers[..i])
    modifies k, g
    ensures ok && PlainAddresses(env) ==> k.deletesDefaults || DefaultsOut(start.routes, peers[..i + 1])
    ensures ok ==> Reached(env, start, global, peers, i + 1, k.host)
    ensures ok ==> left == Leftovers(start, peers[..i + 1]) && g.peers == global + Entries(env, peers[..i + 1])
    ensures (k.reliable && Syncable(env, start, peers[..i + 1])
             && (k.deletesDefaults || (PlainAddresses(env) && DefaultsOut(start.routes, peers[..i + 1])))) ==> ok
    ensures ForeignKept(start, k.host, peers)
  {
    ghost var before, total := k.host, g.peers;
    BeforeClient(env, start, global, peers, i, k.host);
    DefaultsBefore(env, start, global, peers, i, k.host);
    ok, left := SyncClient(k, g, env, existing, peers[i]);
    TouchedKeepsForeign(start, peers, i, before, k.host, Usable(before.links, existing, IfName(peers[i].name)));
    if ok {
      AfterClient(env, start, global, peers, i, before, total, k.host, g.peers);
    }
  }

  /** Client `i` meets a default route on its link only if one was there from the start. */
  lemma DefaultsBefore(env: Env, start: Host, global: seq<PeerConfig>, peers: seq<WgPeer>, i: nat, host: Host)
    requires i < |peers| && Reached(env, start, global, peers, i, host)
    ensures DefaultsOut(start.routes, peers[..i]) && Syncable(env, start, peers[..i + 1]) ==>
              (DefaultsOut(start.routes, peers[..i + 1]) <==>
               NoDefaultOn(host.routes, IfName(peers[i].name)) && NoDefaultIn(peers[i].routes))
  {
    DefaultsOutSnoc(start.routes, peers, i);
    if DefaultsOut(start.routes, peers[..i]) && Syncable(env, start, peers[..i + 1]) {
      assert peers[..i + 1][..i] == peers[..i];
      FreshName(peers[..i + 1]);
      DefaultsAfterOthers(start.routes, peers[..i], IfName(peers[i].name));
    }
  }

  lemma DefaultsOutSnoc(routes: map<Net, string>, peers: seq<WgPeer>, i: nat)
    requires i < |peers|
    ensures DefaultsOut(routes, peers[..i + 1]) <==>
            DefaultsOut(routes, peers[..i])
            && NoDefaultIn(peers[i].routes) && NoDefaultOn(routes, IfName(peers[i].name))
  {
    var upto := peers[..i + 1];
    assert upto[i] == peers[i] && forall j :: 0 <= j < i ==> upto[j] == peers[..i][j];
  }

  lemma DefaultsAfterOthers(routes: map<Net, string>, init: seq<WgPeer>, n: string)
    requires DefaultsOut(routes, init) && !ClientName(init, n)
    ensures NoDefaultOn(RoutesAfter(routes, init), n) <==> NoDefaultOn(routes, n)
  {
    forall d | IsDefault(d)
      ensures d in RoutesAfter(routes, init) && RoutesAfter(routes, init)[d] == n <==> d in routes && routes[d] == n
    {
      UnwantedRoute(routes, init, d);
    }
  }

  lemma BeforeClient(env: Env, start: Host, global: seq<PeerConfig>, peers: seq<WgPeer>, i: nat, host: Host)
    requires i < |peers| && Reached(env, start, global, peers, i, host)
    ensures var n, existing := IfName(peers[i].name), Leftovers(start, peers[..i]);
            && existing <= host.links.Keys
            && (Usable(host.links, existing, n) && n in start.links ==> Managed(start.links, n))
            && (Syncable(env, start, peers[..i + 1]) <==> Readable(env, peers[i]) && Usable(host.links, existing, n))
  {
    var n, init := IfName(peers[i].name), peers[..i];
    ExistingAreThere(env, start, global, init);
    UsableIff(env, start, global, init, n);
    SyncableSnoc(env, start, peers[..i + 1]);
    assert peers[..i + 1][..i] == init;
  }

  lemma AfterClient(env: Env, start: Host, global: seq<PeerConfig>, peers: seq<WgPeer>, i: nat,
                    before: Host, total: seq<PeerConfig>, after: Host, newTotal: seq<PeerConfig>)
    requires i < |peers| && Reached(env, start, global, peers, i, before) && Syncable(env, start, peers[..i + 1])
    requires total == global + Entries(env, peers[..i]) && newTotal == total + [ServerEntry(env, peers[i])]
    requires Usable(before.links, Leftovers(start, peers[..i]), IfName(peers[i].name))
    requires after.links == before.links[IfName(peers[i].name) := ConfiguredLink(env, before.links, newTotal, peers[i])]
    requires after.routes == StepRoutes(before.routes, IfName(peers[i].name), peers[i].routes)
    requires ForeignKept(start, after, peers)
    ensures Reached(env, start, global, peers, i + 1, after)
    ensures Leftovers(start, peers[..i + 1]) == Leftovers(start, peers[..i]) - {IfName(peers[i].name)}
    ensures newTotal == global + Entries(env, peers[..i + 1])
  {
    LeftoversSnoc(start, peers, i);
    EntriesSnoc(env, peers, i);
    assert newTotal == global + Entries(env, peers[..i + 1]);
    ClientReached(env, start, global, peers, i, before, after);
  }

  method WgcSync(k: Kernel, g: Globals, env: Env, peers: seq<WgPeer>) returns (ok: bool)
    modifies k, g
    ensures ok ==> Syncable(env, old(k.host), peers)
    ensures ok && PlainAddresses(env) ==> k.deletesDefaults || DefaultsOut(old(k.host.routes), peers)
    ensures (k.reliable && Syncable(env, old(k.host), peers)
             && (k.deletesDefaults || (PlainAddresses(env) && DefaultsOut(old(k.host.routes), peers)))) ==> ok
    ensures ok ==> k.host == Synced(env, old(k.host), old(g.peers), peers)
    ensures ok ==> forall i :: 0 <= i < |peers| ==> ClientIsUp(env, k.host.links, peers[i])
    ensures ok ==> g.peers == old(g.peers) + Entries(env, peers)
    ensures ForeignKept(old(k.host), k.host, peers)
  {
    var existing := set n | n in k.host.links && Managed(k.host.links, n);
    ghost var start, global := k.host, g.peers;
    assert peers[..0] == [];
    for i := 0 to |peers|
      invariant Reached(env, start, global, peers, i, k.host)
      invariant existing == Leftovers(start, peers[..i])
      invariant g.peers == global + Entries(env, peers[..i])
      invariant PlainAddresses(env) ==> k.deletesDefaults || DefaultsOut(start.routes, peers[..i])
    {
      ok, existing := ClientStep(k, g, env, existing, peers, i, start, global);
      if !ok {
        SyncablePrefix(env, start, peers, i);
        assert DefaultsOut(start.routes, peers) ==> DefaultsOut(start.routes, peers[..i + 1]);
        return;
      }
    }
    assert peers[..|peers|] == peers;
    ghost var before := k.host;
    ok := DeleteLeftovers(k, existing);
    ghost var gone :| gone <= existing && k.host == DeleteLinks(before, gone);
    DeletedKeepsForeign(start, peers, before, gone);
    if ok {
      LinksAreExact(env, start, global, peers);
    }
  }

  /** Deletes the links in any order; a failure leaves some of them. */
  method DeleteLeftovers(k: Kernel, names: set<string>) returns (ok: bool)
    modifies k
    ensures k.reliable ==> ok
    ensures ok ==> k.host == DeleteLinks(old(k.host), names)
    ensures exists gone :: gone <= names && k.host == DeleteLinks(old(k.host), gone)
  {
    var todo := names;
    ghost var gone := {};
    DeleteNone(k.host);
    while todo != {}
      invariant todo <= names && gone == names - todo
      invariant k.host == DeleteLinks(old(k.host), gone)
      decreases todo
    {
      var n :| n in todo;
      todo := todo - {n};
      ok := k.LinkDel(n);
      if !ok {
        return;
      }
      DeleteBoth(old(k.host), gone, n);
      gone := gone + {n};
    }
    assert gone == names;
    ok := true;
  }

  lemma DeleteNone(host: Host)
    ensures DeleteLinks(host, {}) == host
  {
  }

  lemma DeleteBoth(host: Host, gone: set<string>, n: string)
    ensures DeleteLinks(DeleteLinks(host, gone), {n}) == DeleteLinks(host, gone + {n})
  {
  }

  lemma ExistingAreThere(env: Env, start: Host, global: seq<PeerConfig>, init: seq<WgPeer>)
    ensures Leftovers(start, init) <= LinksAfter(env, start.links, global, init).Keys
  {
    forall n | n in Leftovers(start, init) ensures n in LinksAfter(env, start.links, global, init) {
      LinksAfterDomain(env, start.links, global, init, n);
    }
  }

  lemma LeftoverNot(start: Host, init: seq<WgPeer>, n: string)
    ensures n in Leftovers(start, init) <==> Managed(start.links, n) && !ClientName(init, n)
  {
  }

  /** No earlier client and no foreign link has the name. */
  ghost predicate NameIsFree(start: Host, init: seq<WgPeer>, n: string) {
    !ClientName(init, n) && (n in start.links ==> Managed(start.links, n))
  }

  lemma UsableIff(env: Env, start: Host, global: seq<PeerConfig>, init: seq<WgPeer>, n: string)
    ensures Usable(LinksAfter(env, start.links, global, init), Leftovers(start, init), n) <==>
            NameIsFree(start, init, n)
  {
    LinksAfterDomain(env, start.links, global, init, n);
    LeftoverNot(start, init, n);
  }

  lemma SyncableSnoc(env: Env, start: Host, peers: seq<WgPeer>)
    requires peers != []
    ensures var k := |peers| - 1;
            Syncable(env, start, peers) <==> Syncable(env, start, peers[..k]) && Readable(env, peers[k])
                                             && NameIsFree(start, peers[..k], IfName(peers[k].name))
  {
    var k := |peers| - 1;
    var init, n := peers[..k], IfName(peers[k].name);
    if Syncable(env, start, peers) {
      FreshName(peers);
      assert Syncable(env, start, init);
    }
    if Syncable(env, start, init) && Readable(env, peers[k]) && NameIsFree(start, init, n) {
      assert forall j :: 0 <= j < k ==> peers[j] == init[j];
      forall j | 0 <= j < k ensures peers[j].name != peers[k].name {
        assert IfName(init[j].name) != n;
      }
    }
  }

  lemma SyncablePrefix(env: Env, start: Host, peers: seq<WgPeer>, i: nat)
    requires i < |peers|
    ensures Syncable(env, start, peers) ==> Syncable(env, start, peers[..i + 1])
  {
  }

  lemma TouchedKeepsForeign(start: Host, peers: seq<WgPeer>, i: nat, before: Host, after: Host, usable: bool)
    requires i < |peers| && ForeignKept(start, before, peers) && OnlyTouches(before, after, usable, peers[i])
    requires usable && IfName(peers[i].name) in start.links ==> Managed(start.links, IfName(peers[i].name))
    ensures ForeignKept(start, after, peers)
  {
    assert forall d :: !Wanted(peers, d) ==> !Wants(peers[i], d);
  }

  lemma ClientReached(env: Env, start: Host, global: seq<PeerConfig>, peers: seq<WgPeer>, i: nat,
                      before: Host, after: Host)
    requires i < |peers| && Reached(env, start, global, peers, i, before) && Syncable(env, start, peers[..i + 1])
    requires Usable(before.links, Leftovers(start, peers[..i]), IfName(peers[i].name))
    requires after.links == before.links[IfName(peers[i].name) :=
               ConfiguredLink(env, before.links, global + Entries(env, peers[..i + 1]), peers[i])]
    requires after.routes == StepRoutes(before.routes, IfName(peers[i].name), peers[i].routes)
    requires ForeignKept(start, after, peers)
    ensures Reached(env, start, global, peers, i + 1, after)
  {
    var n, init, upto := IfName(peers[i].name), peers[..i], peers[..i + 1];
    assert upto[..i] == init && upto[i] == peers[i];
    LinksAfterDomain(env, start.links, global, init, n);
    LeftoverNot(start, init, n);
    assert LinkOrNew(before.links, n).kind == WIREGUARD;
    LinksAfterStep(env, start.links, global, upto);
  }

  /** `LinksAfter` unfolded once. */
  lemma LinksAfterStep(env: Env, links: map<string, Link>, global: seq<PeerConfig>, peers: seq<WgPeer>)
    requires peers != []
    ensures var n := |peers| - 1;
            var before, ifname := LinksAfter(env, links, global, peers[..n]), IfName(peers[n].name);
            LinksAfter(env, links, global, peers)
            == before[ifname :=
                 ClientLink(env, peers[n], ApplyAll(DeviceOf(before, ifname), global + Entries(env, peers)))]
  {
  }

  lemma LeftoversSnoc(start: Host, peers: seq<WgPeer>, i: nat)
    requires i < |peers|
    ensures Leftovers(start, peers[..i + 1]) == Leftovers(start, peers[..i]) - {IfName(peers[i].name)}
  {
    var upto := peers[..i + 1];
    assert upto[..i] == peers[..i];
    forall n ensures n in Leftovers(start, upto) <==> n in Leftovers(start, peers[..i]) - {IfName(peers[i].name)} {
      LeftoverNot(start, upto, n);
      LeftoverNot(start, peers[..i], n);
      ClientNameSnoc(upto, n);
    }
  }

  lemma EntriesSnoc(env: Env, peers: seq<WgPeer>, i: nat)
    requires i < |peers|
    ensures Entries(env, peers[..i + 1]) == Entries(env, peers[..i]) + [ServerEntry(env, peers[i])]
  {
  }

  lemma DeletedKeepsForeign(start: Host, peers: seq<WgPeer>, before: Host, gone: set<string>)
    requires ForeignKept(start, before, peers)
    requires forall n :: n in gone ==> Managed(start.links, n)
    ensures ForeignKept(start, DeleteLinks(before, gone), peers)
  {
  }
}
