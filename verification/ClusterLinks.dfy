/** One sync of the cluster client's interfaces (`wgcSync`) as a function of the host's links and
    routes. The routing table is shared by all links: replacing a route takes it from the link
    that had it. */
module ClusterLinks {
  import opened Nets
  import opened Device

  const WIREGUARD := "wireguard"
  const PREFIX := "wgc-"

  datatype Link = Link(kind: string, up: bool, addrs: set<Net>, key: Key, device: Peers)

  datatype Host = Host(links: map<string, Link>, routes: map<Net, string>)

  datatype WgPeer = WgPeer(
    name: string,
    privateKey: Key,
    address: string,
    keepalive: nat,
    serverKey: Key,
    routes: seq<Net>,
    preSharedKey: string,
    endpoint: string)

  /** `prefixed` reads an address with its prefix length, `endpoint` an address with a port, and
      `connected` tells which routes the kernel adds by itself for an interface address. */
  datatype Env = Env(
    parsers: Parsers,
    prefixed: string -> Option<Net>,
    endpoint: string -> bool,
    connected: Net -> set<Net>)

  function IfName(name: string): string {
    PREFIX + name
  }

  predicate Managed(links: map<string, Link>, n: string) {
    n in links && links[n].kind == WIREGUARD && PREFIX <= n
  }

  /** `FullMask` and the fallback to an address with a prefix length. */
  function LinkAddr(env: Env, text: string): Option<Net> {
    match env.parsers.ip(text)
    case Some(a) => Some(HostNet(a))
    case None => env.prefixed(text)
  }

  function PskOf(env: Env, p: WgPeer): Option<Option<Key>> {
    if p.preSharedKey == "" then Some(None)
    else match env.parsers.key(p.preSharedKey) { case None => None case Some(k) => Some(Some(k)) }
  }

  function ServerEntry(env: Env, p: WgPeer): PeerConfig {
    PeerConfig(p.serverKey, false, false, true,
               if PskOf(env, p).Some? then PskOf(env, p).value else None,
               if p.keepalive != 0 then Some(p.keepalive) else None, p.routes)
  }

  /** What the texts of a client must satisfy. */
  predicate Readable(env: Env, p: WgPeer) {
    env.endpoint(p.endpoint) && PskOf(env, p).Some? && LinkAddr(env, p.address).Some?
  }

  /** A client is readable if its endpoint is, its preshared key unless it has none, and its address in
      one of the two notations. */
  lemma ReadableIff(env: Env, p: WgPeer)
    ensures Readable(env, p) <==>
            env.endpoint(p.endpoint)
            && (p.preSharedKey == "" || env.parsers.key(p.preSharedKey).Some?)
            && (env.parsers.ip(p.address).Some? || env.prefixed(p.address).Some?)
  {
  }

  predicate IsDefault(n: Net) {
    n.ones == 0
  }

  predicate NoDefaultIn(nets: seq<Net>) {
    forall d :: d in nets ==> !IsDefault(d)
  }

  predicate NoDefaultOn(routes: map<Net, string>, n: string) {
    forall d :: d in routes && routes[d] == n ==> !IsDefault(d)
  }

  /** No client wants a default route, and none leads to a client's link. */
  predicate DefaultsOut(routes: map<Net, string>, peers: seq<WgPeer>) {
    forall i :: 0 <= i < |peers| ==> NoDefaultIn(peers[i].routes) && NoDefaultOn(routes, IfName(peers[i].name))
  }

  /** The kernel adds no default route by itself. */
  ghost predicate PlainAddresses(env: Env) {
    forall a, d :: d in env.connected(a) ==> !IsDefault(d)
  }

  // ---------------------------------------------------------------- one client

  /** The routes after syncing one link: it holds exactly its wanted routes, wherever they were
      before; a default route is listed without a destination, matches none and is deleted. */
  function StepRoutes(routes: map<Net, string>, ifname: string, wanted: seq<Net>): map<Net, string> {
    map d | d in routes.Keys + (set n | n in wanted) && (d in wanted ==> !IsDefault(d))
            && (d !in wanted ==> routes[d] != ifname)
      :: if d in wanted then ifname else routes[d]
  }

  function ClientLink(env: Env, p: WgPeer, device: Peers): Link {
    var addr := LinkAddr(env, p.address);
    Link(WIREGUARD, true, if addr.Some? then {addr.value} else {}, p.privateKey, device)
  }

  function DeviceOf(links: map<string, Link>, n: string): Peers {
    if n in links then links[n].device else map[]
  }

  function Entries(env: Env, peers: seq<WgPeer>): (r: seq<PeerConfig>)
    ensures |r| == |peers| && forall i :: 0 <= i < |r| ==> r[i] == ServerEntry(env, peers[i])
  {
    seq(|peers|, i requires 0 <= i < |peers| => ServerEntry(env, peers[i]))
  }

  /** The links after all clients: `global` is the accumulated peer list, which every interface is
      configured with. */
  function LinksAfter(env: Env, links: map<string, Link>, global: seq<PeerConfig>, peers: seq<WgPeer>)
    : map<string, Link>
  {
    if peers == [] then links
    else
      var n := |peers| - 1;
      var before, p := LinksAfter(env, links, global, peers[..n]), peers[n];
      var ifname := IfName(p.name);
      before[ifname := ClientLink(env, p, ApplyAll(DeviceOf(before, ifname), global + Entries(env, peers)))]
  }

  function RoutesAfter(routes: map<Net, string>, peers: seq<WgPeer>): map<Net, string> {
    if peers == [] then routes
    else
      var n := |peers| - 1;
      StepRoutes(RoutesAfter(routes, peers[..n]), IfName(peers[n].name), peers[n].routes)
  }

  /** Deleting links takes their routes along. */
  function DeleteLinks(host: Host, names: set<string>): Host {
    Host(host.links - names, map d | d in host.routes && host.routes[d] !in names :: host.routes[d])
  }

  function Leftovers(host: Host, peers: seq<WgPeer>): set<string> {
    set n | n in host.links && Managed(host.links, n) && forall i :: 0 <= i < |peers| ==> IfName(peers[i].name) != n
  }

  function Synced(env: Env, host: Host, global: seq<PeerConfig>, peers: seq<WgPeer>): Host {
    var after := Host(LinksAfter(env, host.links, global, peers), RoutesAfter(host.routes, peers));
    DeleteLinks(after, Leftovers(host, peers))
  }

  predicate DistinctNames(peers: seq<WgPeer>) {
    forall i, j :: 0 <= i < j < |peers| ==> peers[i].name != peers[j].name
  }

  /** Every client is readable, names do not repeat, and no foreign link bears a client's name. */
  predicate Syncable(env: Env, host: Host, peers: seq<WgPeer>) {
    && (forall i :: 0 <= i < |peers| ==> Readable(env, peers[i]))
    && DistinctNames(peers)
    && (forall i :: 0 <= i < |peers| && IfName(peers[i].name) in host.links ==>
          Managed(host.links, IfName(peers[i].name)))
  }

  /** Routes point to existing links. */
  predicate ValidHost(host: Host) {
    forall d :: d in host.routes ==> host.routes[d] in host.links
  }

  // ---------------------------------------------------------------- the result is exact

  predicate Wants(p: WgPeer, d: Net) {
    d in p.routes
  }

  /** Client `i` is the last one that wants `d`. */
  ghost predicate LastWanter(peers: seq<WgPeer>, d: Net, i: int) {
    0 <= i < |peers| && Wants(peers[i], d) && forall j :: i < j < |peers| ==> !Wants(peers[j], d)
  }

  ghost predicate ClientName(peers: seq<WgPeer>, n: string) {
    exists i :: 0 <= i < |peers| && IfName(peers[i].name) == n
  }

  lemma ClientNameSnoc(peers: seq<WgPeer>, n: string)
    requires peers != []
    ensures ClientName(peers, n) <==> ClientName(peers[..|peers| - 1], n) || n == IfName(peers[|peers| - 1].name)
  {
    var k := |peers| - 1;
    if ClientName(peers[..k], n) {
      var i :| 0 <= i < k && IfName(peers[..k][i].name) == n;
      assert IfName(peers[i].name) == n;
    }
    if ClientName(peers, n) {
      var i :| 0 <= i < |peers| && IfName(peers[i].name) == n;
      assert i < k ==> IfName(peers[..k][i].name) == n;
    }
  }

  lemma IfNameInjective(a: string, b: string)
    requires IfName(a) == IfName(b)
    ensures a == b
  {
    assert IfName(a)[|PREFIX|..] == a && IfName(b)[|PREFIX|..] == b;
  }

  lemma {:induction false} LinksAfterDomain(env: Env, links: map<string, Link>, global: seq<PeerConfig>,
                                            peers: seq<WgPeer>, n: string)
    ensures n in LinksAfter(env, links, global, peers) <==> n in links || ClientName(peers, n)
    ensures n in links && !ClientName(peers, n) ==> LinksAfter(env, links, global, peers)[n] == links[n]
  {
    if peers != [] {
      ClientNameSnoc(peers, n);
      LinksAfterDomain(env, links, global, peers[..|peers| - 1], n);
    }
  }

  /** The link of a client with exactly this device. */
  ghost predicate HasClientLink(env: Env, links: map<string, Link>, p: WgPeer, device: Peers) {
    IfName(p.name) in links && links[IfName(p.name)] == ClientLink(env, p, device)
  }

  lemma LinksAfterLast(env: Env, links: map<string, Link>, global: seq<PeerConfig>, peers: seq<WgPeer>)
    requires DistinctNames(peers) && peers != []
    ensures var p := peers[|peers| - 1];
            HasClientLink(env, LinksAfter(env, links, global, peers), p,
                          ApplyAll(DeviceOf(links, IfName(p.name)), global + Entries(env, peers)))
  {
    FreshName(peers);
    LinksAfterDomain(env, links, global, peers[..|peers| - 1], IfName(peers[|peers| - 1].name));
  }

  lemma LinksAfterOther(env: Env, links: map<string, Link>, global: seq<PeerConfig>, peers: seq<WgPeer>, m: nat,
                        p: WgPeer, device: Peers)
    requires 0 < m <= |peers| && p.name != peers[m - 1].name
    requires HasClientLink(env, LinksAfter(env, links, global, peers[..m - 1]), p, device)
    ensures HasClientLink(env, LinksAfter(env, links, global, peers[..m]), p, device)
  {
    assert peers[..m][..m - 1] == peers[..m - 1];
    if IfName(p.name) == IfName(peers[m - 1].name) {
      IfNameInjective(p.name, peers[m - 1].name);
    }
  }

  /** Later clients of other names do not touch the link of a client. */
  lemma {:induction false} LaterKeepClient(env: Env, links: map<string, Link>, global: seq<PeerConfig>,
                                           peers: seq<WgPeer>, i: nat, m: nat, p: WgPeer, device: Peers)
    requires i < m <= |peers| && forall j :: i < j < m ==> peers[j].name != p.name
    requires HasClientLink(env, LinksAfter(env, links, global, peers[..i + 1]), p, device)
    ensures HasClientLink(env, LinksAfter(env, links, global, peers[..m]), p, device)
  {
    if m > i + 1 {
      LaterKeepClient(env, links, global, peers, i, m - 1, p, device);
      LinksAfterOther(env, links, global, peers, m, p, device);
    }
  }

  lemma LinksAfterAt(env: Env, links: map<string, Link>, global: seq<PeerConfig>, peers: seq<WgPeer>, i: nat,
                     device: Peers)
    requires DistinctNames(peers) && i < |peers|
    requires device == ApplyAll(DeviceOf(links, IfName(peers[i].name)), ConfigOf(env, global, peers, i))
    ensures HasClientLink(env, LinksAfter(env, links, global, peers[..i + 1]), peers[i], device)
  {
    LinksAfterLast(env, links, global, peers[..i + 1]);
  }

  /** The interface of client `i`, including what it is configured with: every peer entry that was
      accumulated up to this client, not just its own. */
  lemma LinksAfterClient(env: Env, links: map<string, Link>, global: seq<PeerConfig>, peers: seq<WgPeer>, i: nat)
    requires DistinctNames(peers) && i < |peers|
    ensures HasClientLink(env, LinksAfter(env, links, global, peers), peers[i],
                          ApplyAll(DeviceOf(links, IfName(peers[i].name)), ConfigOf(env, global, peers, i)))
  {
    var device := ApplyAll(DeviceOf(links, IfName(peers[i].name)), ConfigOf(env, global, peers, i));
    LinksAfterAt(env, links, global, peers, i, device);
    LaterKeepClient(env, links, global, peers, i, |peers|, peers[i], device);
    assert peers[..|peers|] == peers;
  }

  /** What client `i`'s interface is configured with. */
  function ConfigOf(env: Env, global: seq<PeerConfig>, peers: seq<WgPeer>, i: nat): seq<PeerConfig>
    requires i < |peers|
  {
    global + Entries(env, peers[..i + 1])
  }

  lemma FreshName(peers: seq<WgPeer>)
    requires DistinctNames(peers) && peers != []
    ensures !ClientName(peers[..|peers| - 1], IfName(peers[|peers| - 1].name))
  {
    var k := |peers| - 1;
    if ClientName(peers[..k], IfName(peers[k].name)) {
      var i :| 0 <= i < k && IfName(peers[..k][i].name) == IfName(peers[k].name);
      IfNameInjective(peers[i].name, peers[k].name);
    }
  }

  lemma {:induction false} WantedRoute(routes: map<Net, string>, peers: seq<WgPeer>, d: Net, i: int)
    requires DistinctNames(peers) && LastWanter(peers, d, i)
    ensures var r := RoutesAfter(routes, peers);
            (d in r <==> !IsDefault(d)) && (d in r ==> r[d] == IfName(peers[i].name))
  {
    var k := |peers| - 1;
    if i < k {
      assert forall j :: 0 <= j < k ==> peers[..k][j] == peers[j];
      WantedRoute(routes, peers[..k], d, i);
      if IfName(peers[i].name) == IfName(peers[k].name) {
        IfNameInjective(peers[i].name, peers[k].name);
      }
    }
  }

  lemma {:induction false} UnwantedRoute(routes: map<Net, string>, peers: seq<WgPeer>, d: Net)
    requires forall i :: 0 <= i < |peers| ==> !Wants(peers[i], d)
    ensures var r := RoutesAfter(routes, peers);
            (d in r <==> d in routes && !ClientName(peers, routes[d])) && (d in r ==> r[d] == routes[d])
  {
    if peers != [] {
      var k := |peers| - 1;
      UnwantedRoute(routes, peers[..k], d);
      if d in routes {
        ClientNameSnoc(peers, routes[d]);
      }
    }
  }

  /** Where a destination leads once the clients are synced: to the last client that wants it; a
      default route nowhere; an unwanted one stays if its link is not a client's. */
  lemma RoutesAfterAre(routes: map<Net, string>, peers: seq<WgPeer>, d: Net)
    requires DistinctNames(peers)
    ensures forall i :: LastWanter(peers, d, i) ==>
              var r := RoutesAfter(routes, peers);
              (d in r <==> !IsDefault(d)) && (d in r ==> r[d] == IfName(peers[i].name))
    ensures !Wanted(peers, d) ==>
              var r := RoutesAfter(routes, peers);
              (d in r <==> d in routes && !ClientName(peers, routes[d])) && (d in r ==> r[d] == routes[d])
  {
    forall i | LastWanter(peers, d, i) {
      WantedRoute(routes, peers, d, i);
    }
    if !Wanted(peers, d) {
      UnwantedRoute(routes, peers, d);
    }
  }

  ghost predicate Wanted(peers: seq<WgPeer>, d: Net) {
    exists i :: 0 <= i < |peers| && Wants(peers[i], d)
  }

  lemma {:induction false} WantedHasLast(peers: seq<WgPeer>, d: Net) returns (i: int)
    requires Wanted(peers, d)
    ensures LastWanter(peers, d, i)
  {
    var k := |peers| - 1;
    if Wants(peers[k], d) {
      i := k;
    } else {
      i := WantedHasLast(peers[..k], d);
      assert forall j :: 0 <= j < k ==> peers[..k][j] == peers[j];
    }
  }

  // ---------------------------------------------------------------- the main results

  function RoutesOf(host: Host, n: string): set<Net> {
    set d | d in host.routes && host.routes[d] == n
  }

  /** A link the sync must not touch. */
  predicate Foreign(links: map<string, Link>, n: string) {
    n in links && !Managed(links, n)
  }

  lemma LeftoverIff(env: Env, host: Host, peers: seq<WgPeer>, n: string)
    requires Syncable(env, host, peers)
    ensures n in Leftovers(host, peers) <==> n in host.links && !Foreign(host.links, n) && !ClientName(peers, n)
    ensures ClientName(peers, n) ==> !Foreign(host.links, n)
  {
    if !ClientName(peers, n) {
      assert forall i :: 0 <= i < |peers| ==> IfName(peers[i].name) != n;
    }
  }

  /** The link of a client: WireGuard, up, with the client's key and exactly its one address. */
  ghost predicate ClientIsUp(env: Env, links: map<string, Link>, p: WgPeer) {
    var n := "wgc-" + p.name;
    && n in links && links[n].kind == "wireguard" && links[n].up && links[n].key == p.privateKey
    && HasAddress(env, p.address, links[n].addrs)
  }

  /** The one address that the text says: a bare address with the full mask of its family, or one with
      its prefix length. */
  ghost predicate HasAddress(env: Env, text: string, addrs: set<Net>) {
    match env.parsers.ip(text)
    case Some(a) => addrs == {Net(a, if a.family.V4? then 32 else 128)}
    case None => env.prefixed(text).Some? && addrs == {env.prefixed(text).value}
  }

  /** A successful sync is exact on links: those of the clients and the foreign ones, and no
      other; foreign links are untouched, and a client's link has exactly its one address. */
  lemma LinksAreExact(env: Env, host: Host, global: seq<PeerConfig>, peers: seq<WgPeer>)
    requires Syncable(env, host, peers)
    ensures var ls := Synced(env, host, global, peers).links;
            && (forall n :: n in ls <==> ClientName(peers, n) || Foreign(host.links, n))
            && (forall n :: Foreign(host.links, n) ==> n in ls && ls[n] == host.links[n])
            && (forall i :: 0 <= i < |peers| ==> ClientIsUp(env, ls, peers[i]))
            && (forall n :: n in host.links && !(host.links[n].kind == "wireguard" && "wgc-" <= n) ==>
                  n in ls && ls[n] == host.links[n])
            && (forall n :: n in ls && ls[n].kind == "wireguard" && "wgc-" <= n ==>
                  exists i :: 0 <= i < |peers| && n == "wgc-" + peers[i].name)
  {
    var ls := Synced(env, host, global, peers).links;
    forall n
      ensures n in ls <==> ClientName(peers, n) || Foreign(host.links, n)
      ensures Foreign(host.links, n) ==> n in ls && ls[n] == host.links[n]
    {
      LinksAfterDomain(env, host.links, global, peers, n);
      LeftoverIff(env, host, peers, n);
    }
    forall i | 0 <= i < |peers| ensures ClientIsUp(env, ls, peers[i]) {
      ClientLinkIsUp(env, host, global, peers, i);
    }
    forall n | n in ls && ls[n].kind == "wireguard" && "wgc-" <= n
      ensures exists i :: 0 <= i < |peers| && n == "wgc-" + peers[i].name
    {
      assert !Foreign(host.links, n) && ClientName(peers, n);
    }
  }

  lemma ClientLinkIsUp(env: Env, host: Host, global: seq<PeerConfig>, peers: seq<WgPeer>, i: nat)
    requires Syncable(env, host, peers) && i < |peers|
    ensures ClientIsUp(env, Synced(env, host, global, peers).links, peers[i])
  {
    var n := IfName(peers[i].name);
    assert ClientName(peers, n);
    LeftoverIff(env, host, peers, n);
    LinksAfterClient(env, host.links, global, peers, i);
  }

  /** ... and on routes: a wanted destination leads to the last client that wants it, except that
      a default route disappears; other routes stay exactly if their link is foreign. */
  lemma RoutesAreExact(env: Env, host: Host, global: seq<PeerConfig>, peers: seq<WgPeer>, d: Net)
    requires Syncable(env, host, peers) && ValidHost(host)
    ensures var r := Synced(env, host, global, peers).routes;
            && (forall i :: LastWanter(peers, d, i) ==>
                  (d in r <==> !IsDefault(d)) && (d in r ==> r[d] == IfName(peers[i].name)))
            && (!Wanted(peers, d) ==>
                  (d in r <==> d in host.routes && Foreign(host.links, host.routes[d]))
                  && (d in r ==> r[d] == host.routes[d]))
    ensures ValidHost(Synced(env, host, global, peers))
  {
    RoutesAfterAre(host.routes, peers, d);
    forall i | LastWanter(peers, d, i) ensures IfName(peers[i].name) !in Leftovers(host, peers) {
    }
    if d in host.routes {
      LeftoverIff(env, host, peers, host.routes[d]);
    }
    SyncedIsValid(env, host, global, peers);
  }

  lemma SyncedIsValid(env: Env, host: Host, global: seq<PeerConfig>, peers: seq<WgPeer>)
    requires Syncable(env, host, peers) && ValidHost(host)
    ensures ValidHost(Synced(env, host, global, peers))
  {
    var routes := RoutesAfter(host.routes, peers);
    forall d | d in routes ensures routes[d] in LinksAfter(env, host.links, global, peers) {
      RoutesAfterAre(host.routes, peers, d);
      LinksAfterDomain(env, host.links, global, peers, routes[d]);
      if Wanted(peers, d) {
        var i := WantedHasLast(peers, d);
        assert ClientName(peers, routes[d]);
      }
    }
  }

  lemma RouteOfClientIff(env: Env, host: Host, global: seq<PeerConfig>, peers: seq<WgPeer>, i: nat, d: Net)
    requires Syncable(env, host, peers) && ValidHost(host) && i < |peers|
    ensures d in RoutesOf(Synced(env, host, global, peers), IfName(peers[i].name)) <==>
            !IsDefault(d) && LastWanter(peers, d, i)
  {
    var n := IfName(peers[i].name);
    assert ClientName(peers, n);
    RoutesAreExact(env, host, global, peers, d);
    LeftoverIff(env, host, peers, n);
    if Wanted(peers, d) {
      var j := WantedHasLast(peers, d);
      if IfName(peers[j].name) == n {
        IfNameInjective(peers[j].name, peers[i].name);
        assert i == j;
      }
    }
  }

  /** A client's link carries exactly its wanted routes if and only if none of them is a default
      route and no later client wants one of them too. */
  lemma RouteSetExactIff(env: Env, host: Host, global: seq<PeerConfig>, peers: seq<WgPeer>, i: nat)
    requires Syncable(env, host, peers) && ValidHost(host) && i < |peers|
    ensures RoutesOf(Synced(env, host, global, peers), IfName(peers[i].name)) == (set d | d in peers[i].routes) <==>
            forall d :: d in peers[i].routes ==> !IsDefault(d) && LastWanter(peers, d, i)
  {
    forall d
      ensures d in RoutesOf(Synced(env, host, global, peers), IfName(peers[i].name)) <==>
              !IsDefault(d) && LastWanter(peers, d, i)
    {
      RouteOfClientIff(env, host, global, peers, i, d);
    }
    assert forall d :: LastWanter(peers, d, i) ==> d in peers[i].routes;
  }

  /** The outcome does not depend on where the sync started: from any two hosts every client ends
      with the same address and the same route set. */
  lemma StartDoesNotMatter(env: Env, a: Host, b: Host, ga: seq<PeerConfig>, gb: seq<PeerConfig>,
                           peers: seq<WgPeer>, i: nat)
    requires Syncable(env, a, peers) && Syncable(env, b, peers) && ValidHost(a) && ValidHost(b) && i < |peers|
    ensures var n, ha, hb := IfName(peers[i].name), Synced(env, a, ga, peers), Synced(env, b, gb, peers);
            && n in ha.links && n in hb.links && ha.links[n].addrs == hb.links[n].addrs
            && RoutesOf(ha, n) == RoutesOf(hb, n)
  {
    var n, ha, hb := IfName(peers[i].name), Synced(env, a, ga, peers), Synced(env, b, gb, peers);
    ClientLinkIsUp(env, a, ga, peers, i);
    ClientLinkIsUp(env, b, gb, peers, i);
    forall d ensures d in RoutesOf(ha, n) <==> d in RoutesOf(hb, n) {
      RouteOfClientIff(env, a, ga, peers, i, d);
      RouteOfClientIff(env, b, gb, peers, i, d);
    }
  }

  // ---------------------------------------------------------------- accumulated peers

  ghost predicate AddsOnly(config: seq<PeerConfig>) {
    forall i :: 0 <= i < |config| ==> !config[i].remove && !config[i].updateOnly
  }

  function KeysOf(config: seq<PeerConfig>): set<Key> {
    set i | 0 <= i < |config| :: config[i].publicKey
  }

  lemma KeysOfSnoc(config: seq<PeerConfig>)
    requires config != []
    ensures KeysOf(config) == KeysOf(config[..|config| - 1]) + {config[|config| - 1].publicKey}
  {
    var n := |config| - 1;
    forall k ensures k in KeysOf(config) <==> k in KeysOf(config[..n]) + {config[n].publicKey} {
      if k in KeysOf(config) {
        var i :| 0 <= i < |config| && config[i].publicKey == k;
        assert i < n ==> config[..n][i].publicKey == k;
      }
      if k in KeysOf(config[..n]) {
        var i :| 0 <= i < n && config[..n][i].publicKey == k;
        assert config[i].publicKey == k;
      }
    }
  }

  lemma {:induction false} ApplyAllKeys(d: Peers, config: seq<PeerConfig>)
    requires AddsOnly(config)
    ensures ApplyAll(d, config).Keys == d.Keys + KeysOf(config)
  {
    if config == [] {
      assert KeysOf(config) == {};
    } else {
      var n := |config| - 1;
      ApplyAllKeys(d, config[..n]);
      KeysOfSnoc(config);
      AddKeys(ApplyAll(d, config[..n]), config[n]);
    }
  }

  lemma AddKeys(d: Peers, c: PeerConfig)
    requires !c.remove && !c.updateOnly
    ensures Apply(d, c).Keys == d.Keys + {c.publicKey}
  {
  }

  lemma AllKeysAre(config: seq<PeerConfig>, k: Key)
    requires config != []
    ensures KeysOf(config) == {k} <==> forall j :: 0 <= j < |config| ==> config[j].publicKey == k
  {
    assert forall j :: 0 <= j < |config| ==> config[j].publicKey in KeysOf(config);
    assert config[0].publicKey in KeysOf(config);
  }

  /** The peer list is never reset, so an interface that did not exist before ends with just its
      own server as a peer if and only if everything accumulated so far has the same key. */
  lemma OwnServerOnlyIff(env: Env, host: Host, global: seq<PeerConfig>, peers: seq<WgPeer>, i: nat)
    requires DistinctNames(peers) && AddsOnly(global) && i < |peers|
    requires IfName(peers[i].name) !in host.links
    ensures var n, ls, k := IfName(peers[i].name), LinksAfter(env, host.links, global, peers), peers[i].serverKey;
            n in ls && (ls[n].device.Keys == {k} <==>
                        (forall j :: 0 <= j < |global| ==> global[j].publicKey == k)
                        && (forall j :: 0 <= j < i ==> peers[j].serverKey == k))
  {
    var config, k := ConfigOf(env, global, peers, i), peers[i].serverKey;
    LinksAfterClient(env, host.links, global, peers, i);
    ConfigAddsOnly(env, global, peers, i);
    ApplyAllKeys(map[], config);
    AllKeysAre(config, k);
    ConfigKeys(env, global, peers, i);
  }

  lemma ConfigAddsOnly(env: Env, global: seq<PeerConfig>, peers: seq<WgPeer>, i: nat)
    requires AddsOnly(global) && i < |peers|
    ensures AddsOnly(ConfigOf(env, global, peers, i))
  {
    var config := ConfigOf(env, global, peers, i);
    forall j | 0 <= j < |config| ensures !config[j].remove && !config[j].updateOnly {
      assert config[j] == if j < |global| then global[j] else ServerEntry(env, peers[j - |global|]);
    }
  }

  lemma ConfigKeys(env: Env, global: seq<PeerConfig>, peers: seq<WgPeer>, i: nat)
    requires i < |peers|
    ensures var config, k := ConfigOf(env, global, peers, i), peers[i].serverKey;
            (forall j :: 0 <= j < |config| ==> config[j].publicKey == k) <==>
            (forall j :: 0 <= j < |global| ==> global[j].publicKey == k)
            && (forall j :: 0 <= j < i ==> peers[j].serverKey == k)
  {
    var config := ConfigOf(env, global, peers, i);
    assert forall j :: 0 <= j < |global| ==> config[j] == global[j];
    assert forall j :: 0 <= j <= i ==> config[|global| + j].publicKey == peers[j].serverKey;
    assert forall j :: |global| <= j < |config| ==> config[j].publicKey == peers[j - |global|].serverKey;
  }

  /** What one entry of the accumulated list does to its own peer and to the others. */
  lemma ServerEntryEffect(env: Env, d: Peers, p: WgPeer)
    ensures IsRouted(env, d, Apply(d, ServerEntry(env, p)), p)
  {
    var c, k := ServerEntry(env, p), p.serverKey;
    var was := if k in d then d[k] else Peer(NO_PSK, 0, []);
    var now := Peer(if c.psk.Some? then c.psk.value else was.psk,
                    if c.keepalive.Some? then c.keepalive.value else was.keepalive, []);
    AssignAllEffect(d[k := now], k, c.allowed, k);
    forall j | j in Apply(d, c) && j != k ensures forall n :: n in p.routes ==> n !in Apply(d, c)[j].allowed {
      AssignAllEffect(d[k := now], k, c.allowed, j);
    }
  }

  /** The peers an interface has just before its own server's entry is applied. */
  function PeersBefore(env: Env, host: Host, global: seq<PeerConfig>, peers: seq<WgPeer>, i: nat): Peers
    requires i < |peers|
  {
    ApplyAll(DeviceOf(host.links, IfName(peers[i].name)), global + Entries(env, peers[..i]))
  }

  /** The client's own server: exactly the client's routes, which nobody else on the interface
      keeps. A preshared key or keepalive that is configured is set; one that is not configured any
      more is not cleared but stays as it was. */
  ghost predicate IsRouted(env: Env, before: Peers, after: Peers, p: WgPeer) {
    var k := p.serverKey;
    var psk := if p.preSharedKey == "" then None else env.parsers.key(p.preSharedKey);
    && k in after && after[k].allowed == Settle(p.routes)
    && (forall j, n :: j in after && j != k && n in p.routes ==> n !in after[j].allowed)
    && after[k].psk == (if psk.Some? then psk.value else if k in before then before[k].psk else NO_PSK)
    && after[k].keepalive == (if p.keepalive != 0 then p.keepalive else if k in before then before[k].keepalive else 0)
  }

  lemma OwnEntryIsLast(env: Env, d: Peers, global: seq<PeerConfig>, peers: seq<WgPeer>, i: nat)
    requires i < |peers|
    ensures ApplyAll(d, ConfigOf(env, global, peers, i)) ==
            Apply(ApplyAll(d, global + Entries(env, peers[..i])), ServerEntry(env, peers[i]))
  {
    var config := ConfigOf(env, global, peers, i);
    assert config == global + Entries(env, peers[..i]) + [ServerEntry(env, peers[i])];
    assert config[..|config| - 1] == global + Entries(env, peers[..i]);
  }

  /** Whatever was accumulated and whatever the interface had before, the client's own server ends
      up routed. */
  lemma OwnServerIsRouted(env: Env, host: Host, global: seq<PeerConfig>, peers: seq<WgPeer>, i: nat)
    requires DistinctNames(peers) && i < |peers|
    ensures var n, ls := IfName(peers[i].name), LinksAfter(env, host.links, global, peers);
            n in ls && IsRouted(env, PeersBefore(env, host, global, peers, i), ls[n].device, peers[i])
  {
    LinksAfterClient(env, host.links, global, peers, i);
    OwnEntryIsLast(env, DeviceOf(host.links, IfName(peers[i].name)), global, peers, i);
    ServerEntryEffect(env, PeersBefore(env, host, global, peers, i), peers[i]);
  }
}
