/** A WireGuard device as the kernel keeps it: peers by public key, each with an ordered list
    of allowed IPs. Cryptokey routing (section 2 of the WireGuard paper by Donenfeld) gives an
    allowed IP to at most one peer, so assigning it to a peer takes it from any other. */
module Device {
  import opened Nets

  datatype Peer = Peer(psk: Key, keepalive: nat, allowed: seq<Net>)

  type Peers = map<Key, Peer>

  /** One entry of a configuration message (`wgtypes.PeerConfig`). */
  datatype PeerConfig = PeerConfig(
    publicKey: Key,
    remove: bool,
    updateOnly: bool,
    replaceAllowedIPs: bool,
    psk: Option<Key>,
    keepalive: Option<nat>,
    allowed: seq<Net>)

  predicate NoDuplicates(nets: seq<Net>) {
    forall i, j :: 0 <= i < j < |nets| ==> nets[i] != nets[j]
  }

  lemma NoDuplicatesSnoc(init: seq<Net>, last: Net)
    ensures NoDuplicates(init + [last]) <==> NoDuplicates(init) && last !in init
  {
    var nets := init + [last];
    assert forall i :: 0 <= i < |init| ==> nets[i] == init[i];
    assert nets[|init|] == last;
  }

  function Without(nets: seq<Net>, n: Net): (r: seq<Net>)
    ensures forall x :: x in r <==> x in nets && x != n
    ensures n !in nets ==> r == nets
    ensures NoDuplicates(nets) ==> NoDuplicates(r)
  {
    if nets == [] then []
    else
      var init, last := nets[..|nets| - 1], nets[|nets| - 1];
      assert nets == init + [last];
      NoDuplicatesSnoc(init, last);
      NoDuplicatesSnoc(Without(init, n), last);
      if last == n then Without(init, n) else Without(init, n) + [last]
  }

  /** The list an empty peer ends up with when `nets` are assigned to it in order: an address
      assigned again moves to the end. */
  function Settle(nets: seq<Net>): (r: seq<Net>)
    ensures forall x :: x in r <==> x in nets
    ensures NoDuplicates(r)
    ensures NoDuplicates(nets) ==> r == nets
  {
    if nets == [] then []
    else
      var init, last := nets[..|nets| - 1], nets[|nets| - 1];
      assert nets == init + [last];
      NoDuplicatesSnoc(init, last);
      NoDuplicatesSnoc(Without(Settle(init), last), last);
      Without(Settle(init), last) + [last]
  }

  function Assign(d: Peers, k: Key, n: Net): Peers
    requires k in d
  {
    map j | j in d ::
      if j == k then d[j].(allowed := Without(d[j].allowed, n) + [n])
      else d[j].(allowed := Without(d[j].allowed, n))
  }

  function AssignAll(d: Peers, k: Key, nets: seq<Net>): (r: Peers)
    requires k in d
    ensures r.Keys == d.Keys
  {
    if nets == [] then d
    else Assign(AssignAll(d, k, nets[..|nets| - 1]), k, nets[|nets| - 1])
  }

  /** What the kernel does with one configuration entry. */
  function Apply(d: Peers, c: PeerConfig): Peers {
    var k := c.publicKey;
    if k !in d && (c.remove || c.updateOnly) then d
    else if c.remove then d - {k}
    else
      var was := if k in d then d[k] else Peer(NO_PSK, 0, []);
      var now := Peer(
        if c.psk.Some? then c.psk.value else was.psk,
        if c.keepalive.Some? then c.keepalive.value else was.keepalive,
        if c.replaceAllowedIPs then [] else was.allowed);
      AssignAll(d[k := now], k, c.allowed)
  }

  function ApplyAll(d: Peers, cs: seq<PeerConfig>): Peers {
    if cs == [] then d
    else Apply(ApplyAll(d, cs[..|cs| - 1]), cs[|cs| - 1])
  }

  ghost predicate Holds(d: Peers, k: Key, n: Net) {
    k in d && n in d[k].allowed
  }

  /** The invariant of cryptokey routing: one holder per allowed IP, listed once. */
  ghost predicate Exclusive(d: Peers) {
    && (forall k :: k in d ==> NoDuplicates(d[k].allowed))
    && (forall j, k, n :: Holds(d, j, n) && Holds(d, k, n) ==> j == k)
  }

  /** What assigning a list changes: the new holder gains the list, everyone else loses it. */
  lemma {:induction false} AssignAllEffect(d: Peers, k: Key, nets: seq<Net>, j: Key)
    requires k in d && j in d
    ensures var p := AssignAll(d, k, nets)[j];
            && p.psk == d[j].psk && p.keepalive == d[j].keepalive
            && (forall n :: n in p.allowed <==>
                              if j == k then n in d[k].allowed || n in nets
                              else n in d[j].allowed && n !in nets)
            && (NoDuplicates(d[j].allowed) ==> NoDuplicates(p.allowed))
            && (j != k && (forall n :: n in nets ==> n !in d[j].allowed) ==> p == d[j])
            && (j == k && d[k].allowed == [] ==> p.allowed == Settle(nets))
  {
    if nets != [] {
      var init, last := nets[..|nets| - 1], nets[|nets| - 1];
      assert nets == init + [last];
      AssignAllEffect(d, k, init, j);
      NoDuplicatesSnoc(Without(AssignAll(d, k, init)[j].allowed, last), last);
    }
  }

  /** The address assigned last is at the end of the list, also if the holder had it before. */
  lemma AssignedLastIsLast(d: Peers, k: Key, nets: seq<Net>)
    requires k in d && nets != []
    ensures var allowed := AssignAll(d, k, nets)[k].allowed;
            |allowed| > 0 && allowed[|allowed| - 1] == nets[|nets| - 1]
            && nets[|nets| - 1] !in allowed[..|allowed| - 1]
  {
    var n, before := |nets| - 1, AssignAll(d, k, nets[..|nets| - 1])[k].allowed;
    assert AssignAll(d, k, nets)[k].allowed == Without(before, nets[n]) + [nets[n]];
  }

  /** Every configuration entry keeps the routing invariant, whatever its flags. */
  lemma ApplyKeepsExclusive(d: Peers, c: PeerConfig)
    requires Exclusive(d)
    ensures Exclusive(Apply(d, c))
  {
    var k := c.publicKey;
    if (k in d || !c.updateOnly) && !c.remove {
      var was := if k in d then d[k] else Peer(NO_PSK, 0, []);
      var now := Peer(
        if c.psk.Some? then c.psk.value else was.psk,
        if c.keepalive.Some? then c.keepalive.value else was.keepalive,
        if c.replaceAllowedIPs then [] else was.allowed);
      var e := d[k := now];
      var d' := Apply(d, c);
      forall j, l, n | Holds(d', j, n) && Holds(d', l, n) ensures j == l {
        AssignAllEffect(e, k, c.allowed, j);
        AssignAllEffect(e, k, c.allowed, l);
        assert j != k ==> Holds(d, j, n);
        assert l != k ==> Holds(d, l, n);
        assert k in d && n in was.allowed ==> Holds(d, k, n);
      }
      forall j | j in d' ensures NoDuplicates(d'[j].allowed) {
        AssignAllEffect(e, k, c.allowed, j);
      }
    } else {
      assert forall j, n :: Holds(Apply(d, c), j, n) ==> Holds(d, j, n);
    }
  }

  /** Entries that add or update a peer and replace its allowed IPs: the peer ends with exactly
      the listed addresses, and no other peer keeps any of them. */
  lemma SetPeerEffect(d: Peers, c: PeerConfig)
    requires !c.remove && c.replaceAllowedIPs && c.psk.Some?
    requires c.publicKey in d || !c.updateOnly
    ensures var d', k := Apply(d, c), c.publicKey;
            && d'.Keys == d.Keys + {k}
            && d'[k].psk == c.psk.value
            && d'[k].allowed == Settle(c.allowed)
            && (c.keepalive.Some? ==> d'[k].keepalive == c.keepalive.value)
    ensures forall j :: j in d && j != c.publicKey ==> OnlyLoses(d[j], Apply(d, c)[j], c.allowed)
  {
    var k := c.publicKey;
    var was := if k in d then d[k] else Peer(NO_PSK, 0, []);
    var now := Peer(c.psk.value, if c.keepalive.Some? then c.keepalive.value else was.keepalive, []);
    AssignAllEffect(d[k := now], k, c.allowed, k);
    forall j | j in d && j != k ensures OnlyLoses(d[j], Apply(d, c)[j], c.allowed) {
      AssignAllEffect(d[k := now], k, c.allowed, j);
    }
  }

  /** A peer that is not configured itself: it loses the given addresses and nothing else. */
  ghost predicate OnlyLoses(before: Peer, after: Peer, nets: seq<Net>) {
    && after.psk == before.psk && after.keepalive == before.keepalive
    && (forall n :: n in after.allowed <==> n in before.allowed && n !in nets)
    && ((forall n :: n in nets ==> n !in before.allowed) ==> after == before)
  }

  /** The device object of `wgctrl`: it is configured entry by entry, and a failure may strike
      after any number of them. */
  class WgDevice {
    var peers: Peers

    constructor ()
      ensures peers == map[]
    {
      peers := map[];
    }

    method ConfigureDevice(config: seq<PeerConfig>) returns (ok: bool, ghost applied: nat)
      modifies this
      ensures applied <= |config| && (ok ==> applied == |config|)
      ensures peers == ApplyAll(old(peers), config[..applied])
    {
      ok, applied := true, 0;
      for i := 0 to |config|
        invariant applied == i && ok
        invariant peers == ApplyAll(old(peers), config[..i])
      {
        var fails := *;
        if fails {
          return false, i;
        }
        assert config[..i + 1][..i] == config[..i];
        peers := Apply(peers, config[i]);
        applied := i + 1;
      }
      assert config[..|config|] == config;
    }
  }
}
