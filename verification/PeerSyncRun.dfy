/** The loops of `wgaSync`, each proved against the specification of `PeerSync`. */
module PeerSyncRun {
  import opened Nets
  import opened Device
  import opened PeerSync
  import opened PeerSyncTheorems

  datatype SyncError = NoDevice | ConfigureFailed

  method ReadDesired(env: Parsers, peers: seq<AccessPeer>) returns (shouldPeers: Desired)
    ensures shouldPeers == DesiredPeers(env, peers)
  {
    shouldPeers := map[];
    for i := 0 to |peers|
      invariant shouldPeers == DesiredPeers(env, peers[..i])
    {
      assert peers[..i + 1][..i] == peers[..i];
      var peer := peers[i];
      if peer.status.None? {
        continue;
      }
      var addrs := Addresses(peer.status.value);
      var allowedIPs: seq<Net> := [];
      for j := 0 to |addrs|
        invariant allowedIPs == AllowedIPs(env, addrs[..j])
      {
        assert addrs[..j + 1][..j] == addrs[..j];
        var ip := env.ip(addrs[j]);
        if ip.None? {
          continue;
        }
        allowedIPs := allowedIPs + [HostNet(ip.value)];
      }
      assert addrs[..|addrs|] == addrs;
      var psk := NO_PSK;
      if peer.spec.preSharedKey != "" {
        var parsed := env.key(peer.spec.preSharedKey);
        if parsed.None? {
          continue;
        }
        psk := parsed.value;
      }
      var pub := env.key(peer.spec.publicKey);
      if pub.None? {
        continue;
      }
      shouldPeers := shouldPeers[pub.value := ConfigEntry(psk, pub.value, allowedIPs)];
    }
    assert peers[..|peers|] == peers;
  }

  /** The comparison loop: address and mask of every position. */
  method Changed(nu: PeerConfig, old_: Peer) returns (changed: bool)
    ensures changed <==> (nu.psk.Some? && nu.psk.value != old_.psk) || nu.allowed != old_.allowed
  {
    changed := false;
    if nu.psk.Some? && nu.psk.value != old_.psk {
      changed := true;
    }
    if |nu.allowed| != |old_.allowed| {
      changed := true;
    } else {
      for i := 0 to |nu.allowed|
        invariant changed <==> (nu.psk.Some? && nu.psk.value != old_.psk) || nu.allowed[..i] != old_.allowed[..i]
      {
        assert nu.allowed[..i + 1] == nu.allowed[..i] + [nu.allowed[i]];
        assert old_.allowed[..i + 1] == old_.allowed[..i] + [old_.allowed[i]];
        if nu.allowed[i].ip != old_.allowed[i].ip {
          changed := true;
        }
        if nu.allowed[i].ones != old_.allowed[i].ones {
          changed := true;
        }
      }
      assert nu.allowed[..|nu.allowed|] == nu.allowed && old_.allowed[..|nu.allowed|] == old_.allowed;
    }
  }

  /** The entries computed so far: one per finished key that needs one. */
  ghost predicate PartialDifference(config: seq<PeerConfig>, have: Peers, want: Desired, todo: set<Key>) {
    && (forall i, j :: 0 <= i < j < |config| ==> config[i].publicKey != config[j].publicKey)
    && (forall i :: 0 <= i < |config| ==>
          config[i].publicKey !in todo && EntryFor(config[i].publicKey, have, want) == Some(config[i]))
    && (forall k :: EntryFor(k, have, want).Some? && k !in todo ==> HasEntry(config, k))
  }

  lemma ExtendDifference(config: seq<PeerConfig>, have: Peers, want: Desired, todo: set<Key>, k: Key)
    requires PartialDifference(config, have, want, todo) && k in todo
    requires EntryFor(k, have, want).Some? ==> EntryFor(k, have, want).value.publicKey == k
    ensures EntryFor(k, have, want).Some? ==>
              PartialDifference(config + [EntryFor(k, have, want).value], have, want, todo - {k})
    ensures EntryFor(k, have, want).None? ==> PartialDifference(config, have, want, todo - {k})
  {
    if EntryFor(k, have, want).Some? {
      var more := config + [EntryFor(k, have, want).value];
      assert more[|config|].publicKey == k;
      forall j | HasEntry(config, j) ensures HasEntry(more, j) {
        var i :| 0 <= i < |config| && config[i].publicKey == j;
        assert more[i].publicKey == j;
      }
    }
  }

  /** The loop over the peers the device has, in whatever order the map is walked: updates and
      removals, and the desired peers that are left to add. */
  method UpdateOrRemove(have: Peers, want: Desired) returns (config: seq<PeerConfig>, shouldPeers: Desired)
    requires WellFormed(want)
    ensures shouldPeers == want - have.Keys
    ensures PartialDifference(config, have, want, shouldPeers.Keys)
  {
    config, shouldPeers := [], want;
    var left := have.Keys;
    while left != {}
      invariant left <= have.Keys
      invariant shouldPeers == want - (have.Keys - left)
      invariant PartialDifference(config, have, want, left + (want.Keys - have.Keys))
      decreases left
    {
      var k :| k in left;
      var old_ := have[k];
      ExtendDifference(config, have, want, left + (want.Keys - have.Keys), k);
      assert left + (want.Keys - have.Keys) - {k} == (left - {k}) + (want.Keys - have.Keys);
      left := left - {k};
      if k in shouldPeers {
        var nu := shouldPeers[k];
        var changed := Changed(nu, old_);
        if changed {
          config := config + [nu.(updateOnly := true, replaceAllowedIPs := true)];
        }
        shouldPeers := shouldPeers - {k};
      } else {
        config := config + [RemoveEntry(k)];
      }
      assert shouldPeers == want - (have.Keys - left);
    }
    assert {} + (want.Keys - have.Keys) == shouldPeers.Keys;
  }

  /** Both loops over Go maps. */
  method Difference(have: Peers, want: Desired) returns (config: seq<PeerConfig>)
    requires WellFormed(want)
    ensures IsDifference(config, have, want)
  {
    var shouldPeers;
    config, shouldPeers := UpdateOrRemove(have, want);
    var rest := shouldPeers.Keys;
    while rest != {}
      invariant rest <= shouldPeers.Keys
      invariant PartialDifference(config, have, want, rest)
      decreases rest
    {
      var k :| k in rest;
      ExtendDifference(config, have, want, rest, k);
      rest := rest - {k};
      config := config + [shouldPeers[k]];
    }
  }

  /** The peer is there with the preshared key of its specification, or none. */
  ghost predicate HasPskOf(env: Parsers, d: Peers, k: Key, spec: PeerSpec) {
    k in d && if spec.preSharedKey == "" then d[k].psk == Key(0) else env.key(spec.preSharedKey) == Some(d[k].psk)
  }

  lemma ConvergedHasPsk(env: Parsers, peers: seq<AccessPeer>, d: Peers, k: Key, i: int)
    requires Converged(d, DesiredPeers(env, peers)) && LastAsker(env, peers, k, i)
    ensures HasPskOf(env, d, k, peers[i].spec)
  {
    LastAskerGets(env, peers, k, i);
    assert Settled(d, DesiredPeers(env, peers), k);
  }

  /** The whole sync. On success the device is converged; a failure while configuring leaves a
      prefix of the entries applied, and every key without a pending entry is settled. */
  method WgaSync(env: Parsers, peers: seq<AccessPeer>, dev: WgDevice) returns (r: Result<(), SyncError>)
    requires Exclusive(dev.peers)
    modifies dev
    ensures Exclusive(dev.peers)
    ensures r.Ok? ==> Converged(dev.peers, DesiredPeers(env, peers))
    ensures r.Ok? ==> forall k, i :: LastAsker(env, peers, k, i) ==> HasPskOf(env, dev.peers, k, peers[i].spec)
    ensures r.Ok? && Clean(DesiredPeers(env, peers)) ==> Matches(dev.peers, DesiredPeers(env, peers))
    ensures r.Err? && r.error.NoDevice? ==> dev.peers == old(dev.peers)
    ensures forall k :: Settled(old(dev.peers), DesiredPeers(env, peers), k)
                        ==> Settled(dev.peers, DesiredPeers(env, peers), k)
  {
    var want := ReadDesired(env, peers);
    DesiredIsWellFormed(env, peers);
    var found := *;
    if !found {
      return Err(NoDevice);
    }
    var have := dev.peers;
    var config := Difference(have, want);
    var ok, applied := dev.ConfigureDevice(config);
    PrefixKeepsSettled(have, want, config, applied);
    if !ok {
      return Err(ConfigureFailed);
    }
    assert config[..|config|] == config;
    SyncConvergesInAnyOrder(have, want, config);
    ExactExactlyWhenClean(dev.peers, want);
    forall k, i | LastAsker(env, peers, k, i) ensures HasPskOf(env, dev.peers, k, peers[i].spec) {
      ConvergedHasPsk(env, peers, dev.peers, k, i);
    }
    return Ok(());
  }

  lemma {:induction false} PrefixKeepsSettled(have: Peers, want: Desired, config: seq<PeerConfig>, i: nat)
    requires WellFormed(want) && Exclusive(have) && IsDifference(config, have, want) && i <= |config|
    ensures Exclusive(ApplyAll(have, config[..i]))
    ensures forall k :: Settled(have, want, k) ==> Settled(ApplyAll(have, config[..i]), want, k)
  {
    PrefixProgress(have, want, config, i);
    if i > 0 {
      PrefixKeepsSettled(have, want, config, i - 1);
      PrefixProgress(have, want, config, i - 1);
      var d := ApplyAll(have, config[..i - 1]);
      assert config[..i][..i - 1] == config[..i - 1] && config[i - 1..][0] == config[i - 1];
      EntryStep(d, want, config[i - 1], []);
    }
  }
}
