/** One peer sync (`wgaSync`): the peer list becomes a desired map, the map is compared with
    the device, and the differences are sent as configuration entries in no particular order. */
module PeerSync {
  import opened Nets
  import opened Device

  const KEEPALIVE := 60

  type Desired = map<Key, PeerConfig>

  // ---------------------------------------------------------------- the desired map

  function AllowedIPs(env: Parsers, addrs: seq<string>): seq<Net> {
    if addrs == [] then []
    else
      var init, last := addrs[..|addrs| - 1], addrs[|addrs| - 1];
      AllowedIPs(env, init)
      + match env.ip(last) { case None => [] case Some(a) => [HostNet(a)] }
  }

  function ConfigEntry(psk: Key, pub: Key, allowed: seq<Net>): PeerConfig {
    PeerConfig(pub, false, false, true, Some(psk), Some(KEEPALIVE), allowed)
  }

  /** The entry a peer asks for: none without a status or with an unreadable key. */
  function EntryOf(env: Parsers, peer: AccessPeer): Option<PeerConfig> {
    if peer.status.None? then None
    else
      var psk := if peer.spec.preSharedKey == "" then Some(NO_PSK) else env.key(peer.spec.preSharedKey);
      var pub := env.key(peer.spec.publicKey);
      if psk.None? || pub.None? then None
      else Some(ConfigEntry(psk.value, pub.value, AllowedIPs(env, Addresses(peer.status.value))))
  }

  function DesiredPeers(env: Parsers, peers: seq<AccessPeer>): Desired {
    if peers == [] then map[]
    else
      var rest := DesiredPeers(env, peers[..|peers| - 1]);
      match EntryOf(env, peers[|peers| - 1])
      case None => rest
      case Some(c) => rest[c.publicKey := c]
  }

  ghost predicate AsksFor(env: Parsers, peer: AccessPeer, k: Key) {
    EntryOf(env, peer).Some? && EntryOf(env, peer).value.publicKey == k
  }

  ghost predicate LastAsker(env: Parsers, peers: seq<AccessPeer>, k: Key, i: int) {
    && 0 <= i < |peers| && AsksFor(env, peers[i], k)
    && (forall j :: i < j < |peers| ==> !AsksFor(env, peers[j], k))
  }

  /** The last peer that asks for a key decides its entry. */
  lemma {:induction false} LastAskerDecides(env: Parsers, peers: seq<AccessPeer>, k: Key, i: int)
    requires LastAsker(env, peers, k, i)
    ensures k in DesiredPeers(env, peers) && Some(DesiredPeers(env, peers)[k]) == EntryOf(env, peers[i])
  {
    var n := |peers| - 1;
    if i < n {
      assert !AsksFor(env, peers[n], k);
      LastAskerDecides(env, peers[..n], k, i);
    }
  }

  /** What a peer asks for, in terms of its texts: who asks for a key, ... */
  lemma AsksForIff(env: Parsers, peer: AccessPeer, k: Key)
    ensures AsksFor(env, peer, k) <==>
            peer.status.Some? && env.key(peer.spec.publicKey) == Some(k)
            && (peer.spec.preSharedKey == "" || env.key(peer.spec.preSharedKey).Some?)
  {
  }

  /** ... and what the last one to ask for it gets: its preshared key, or the all-zero one if it has
      none, and a keepalive of 60 s. A peer with a single legacy address is served under that one. */
  lemma LastAskerGets(env: Parsers, peers: seq<AccessPeer>, k: Key, i: int)
    requires LastAsker(env, peers, k, i)
    ensures k in DesiredPeers(env, peers)
    ensures var c, spec, status := DesiredPeers(env, peers)[k], peers[i].spec, peers[i].status.value;
            && c.publicKey == k && !c.remove && !c.updateOnly && c.replaceAllowedIPs
            && c.psk == (if spec.preSharedKey == "" then Some(Key(0)) else env.key(spec.preSharedKey))
            && c.keepalive == Some(60)
            && (status.addresses != [] ==> c.allowed == AllowedIPs(env, status.addresses))
            && (status.addresses == [] ==> c.allowed == OneAddress(env, status.address))
  {
    LastAskerDecides(env, peers, k, i);
    var status := peers[i].status.value;
    assert AllowedIPs(env, [status.address][..0]) == [];
  }

  function OneAddress(env: Parsers, text: string): seq<Net> {
    match env.ip(text)
    case None => []
    case Some(a) => [Net(a, if a.family.V4? then 32 else 128)]
  }

  /** Only keys that some peer asks for appear, so every key has a last asker. */
  lemma {:induction false} DesiredHasLastAsker(env: Parsers, peers: seq<AccessPeer>, k: Key) returns (i: int)
    requires k in DesiredPeers(env, peers)
    ensures LastAsker(env, peers, k, i)
  {
    var n := |peers| - 1;
    if AsksFor(env, peers[n], k) {
      i := n;
    } else {
      i := DesiredHasLastAsker(env, peers[..n], k);
      assert forall j :: i < j < n ==> peers[..n][j] == peers[j];
    }
  }

  /** The positions of the readable addresses, in order. */
  ghost function ReadableAt(env: Parsers, addrs: seq<string>): (at: seq<nat>)
    ensures forall i, j :: 0 <= i < j < |at| ==> at[i] < at[j]
    ensures forall i :: i in at <==> 0 <= i < |addrs| && env.ip(addrs[i]).Some?
  {
    if addrs == [] then []
    else
      var n := |addrs| - 1;
      assert forall i :: 0 <= i < n ==> addrs[..n][i] == addrs[i];
      var before := ReadableAt(env, addrs[..n]);
      assert forall j :: 0 <= j < |before| ==> before[j] in before;
      if env.ip(addrs[n]).Some? then before + [n] else before
  }

  /** The allowed IPs are the full-length networks of exactly the readable addresses, in list
      order. */
  lemma {:induction false} AllowedIPsInOrder(env: Parsers, addrs: seq<string>)
    ensures var at := ReadableAt(env, addrs);
            && |AllowedIPs(env, addrs)| == |at|
            && forall j :: 0 <= j < |at| ==>
                 at[j] < |addrs| && Some(AllowedIPs(env, addrs)[j].ip) == env.ip(addrs[at[j]])
                 && AllowedIPs(env, addrs)[j].ones == if AllowedIPs(env, addrs)[j].ip.family.V4? then 32 else 128
  {
    if addrs != [] {
      var n := |addrs| - 1;
      AllowedIPsInOrder(env, addrs[..n]);
      assert forall j :: 0 <= j < |ReadableAt(env, addrs)| ==> ReadableAt(env, addrs)[j] in ReadableAt(env, addrs);
    }
  }

  ghost predicate WellFormed(want: Desired) {
    forall k :: k in want ==>
      exists psk, allowed :: want[k] == ConfigEntry(psk, k, allowed)
  }

  lemma DesiredIsWellFormed(env: Parsers, peers: seq<AccessPeer>)
    ensures WellFormed(DesiredPeers(env, peers))
  {
    if peers != [] {
      DesiredIsWellFormed(env, peers[..|peers| - 1]);
    }
  }

  // ---------------------------------------------------------------- the difference

  predicate Differs(nu: PeerConfig, old_: Peer) {
    (nu.psk.Some? && nu.psk.value != old_.psk) || nu.allowed != old_.allowed
  }

  function RemoveEntry(k: Key): PeerConfig {
    PeerConfig(k, true, false, false, None, None, [])
  }

  /** The entry emitted for a key, if any: remove, update, nothing, or add. */
  function EntryFor(k: Key, have: Peers, want: Desired): Option<PeerConfig> {
    if k in have then
      if k !in want then Some(RemoveEntry(k))
      else if Differs(want[k], have[k]) then Some(want[k].(updateOnly := true, replaceAllowedIPs := true))
      else None
    else if k in want then Some(want[k])
    else None
  }

  ghost predicate HasEntry(config: seq<PeerConfig>, k: Key) {
    exists i :: 0 <= i < |config| && config[i].publicKey == k
  }

  /** An outdated entry: an update of a peer that has gone in the meantime brings nothing back, but the
      entry of a peer that was missing creates it. */
  lemma OutdatedEntry(k: Key, have: Peers, want: Desired, now: Peers)
    requires WellFormed(want) && k in want && EntryFor(k, have, want).Some? && k !in now
    ensures k in have ==> Apply(now, EntryFor(k, have, want).value) == now
    ensures k !in have ==> k in Apply(now, EntryFor(k, have, want).value)
  {
    if k !in have {
      SetPeerEffect(now, want[k]);
    }
  }

  /** `config` is the difference between `have` and `want` in some order: the entry of every key
      that needs one, once. */
  ghost predicate IsDifference(config: seq<PeerConfig>, have: Peers, want: Desired) {
    && (forall i, j :: 0 <= i < j < |config| ==> config[i].publicKey != config[j].publicKey)
    && (forall i :: 0 <= i < |config| ==> EntryFor(config[i].publicKey, have, want) == Some(config[i]))
    && (forall k :: EntryFor(k, have, want).Some? ==> HasEntry(config, k))
  }

  // ---------------------------------------------------------------- what a sync establishes

  /** Nobody else asks for an address of `k`. */
  ghost predicate Alone(want: Desired, k: Key) {
    k in want && forall j, n :: j in want && n in want[j].allowed && n in want[k].allowed ==> j == k
  }

  /** Key `k` is as `want` asks, up to addresses that several peers ask for: such an address is
      with one of the peers that want it. A peer without such addresses has its exact list. */
  ghost predicate Settled(d: Peers, want: Desired, k: Key) {
    && (k in d <==> k in want)
    && (k in want ==>
          && Some(d[k].psk) == want[k].psk
          && (forall n :: Holds(d, k, n) ==> n in want[k].allowed)
          && (forall n :: n in want[k].allowed ==> HeldByWanter(d, want, n))
          && (Alone(want, k) ==> d[k].allowed == Settle(want[k].allowed)))
  }

  ghost predicate HeldByWanter(d: Peers, want: Desired, n: Net) {
    exists h :: Holds(d, h, n) && h in want && n in want[h].allowed
  }

  /** An entry that a sync towards `want` may emit, at whatever time it computed it. */
  ghost predicate TowardsWant(c: PeerConfig, want: Desired) {
    if c.publicKey in want
    then c == want[c.publicKey] || c == want[c.publicKey].(updateOnly := true)
    else c == RemoveEntry(c.publicKey)
  }

  lemma EmittedTowardsWant(k: Key, have: Peers, want: Desired)
    requires WellFormed(want) && EntryFor(k, have, want).Some?
    ensures var c := EntryFor(k, have, want).value;
            c.publicKey == k && TowardsWant(c, want) && (c.updateOnly ==> k in have && k in want)
  {
  }

  /** No entry towards the same desired map disturbs a key that is already settled. */
  lemma EntryKeepsSettled(d: Peers, c: PeerConfig, want: Desired, k: Key)
    requires WellFormed(want) && TowardsWant(c, want)
    requires Settled(d, want, k) && c.publicKey != k
    ensures Settled(Apply(d, c), want, k)
  {
    var j, d' := c.publicKey, Apply(d, c);
    if j in want && (j in d || !c.updateOnly) {
      SetPeerEffect(d, c);
      assert forall n :: n in d'[j].allowed <==> n in c.allowed;
      if k in want {
        forall n | n in want[k].allowed ensures HeldByWanter(d', want, n) {
          if n in c.allowed {
            assert Holds(d', j, n);
          } else {
            var h :| Holds(d, h, n) && h in want && n in want[h].allowed;
            assert h != j;
            assert Holds(d', h, n);
          }
        }
        assert forall n :: Holds(d', k, n) ==> Holds(d, k, n);
        if Alone(want, k) {
          forall n | n in c.allowed ensures n !in d[k].allowed {
            assert n in want[j].allowed;
            assert n in d[k].allowed ==> Holds(d, k, n);
          }
        }
      }
    } else if j !in want {
      if k in want {
        forall n | n in want[k].allowed ensures HeldByWanter(d', want, n) {
          var h :| Holds(d, h, n) && h in want && n in want[h].allowed;
          assert Holds(d', h, n);
        }
        assert forall n :: Holds(d', k, n) ==> Holds(d, k, n);
      }
    }
  }

  /** The entry of a key settles that key, on any device. */
  lemma EntrySettlesItsKey(d: Peers, c: PeerConfig, want: Desired)
    requires WellFormed(want) && TowardsWant(c, want)
    requires c.updateOnly ==> c.publicKey in d
    ensures Settled(Apply(d, c), want, c.publicKey)
  {
    var k, d' := c.publicKey, Apply(d, c);
    if k in want {
      SetPeerEffect(d, c);
      forall n | n in want[k].allowed ensures HeldByWanter(d', want, n) {
        assert Holds(d', k, n);
      }
    }
  }

  /** A key without an entry is settled already. */
  lemma NoEntryIsSettled(k: Key, have: Peers, want: Desired)
    requires WellFormed(want) && Exclusive(have) && EntryFor(k, have, want).None?
    ensures Settled(have, want, k)
  {
    if k in want {
      forall n | n in want[k].allowed ensures HeldByWanter(have, want, n) {
        assert Holds(have, k, n);
      }
    }
  }
}
