/** What a peer sync achieves: in whatever order its entries are applied, alone or interleaved
    with other syncs, over whole histories of the device. */
module PeerSyncTheorems {
  import opened Nets
  import opened Device
  import opened PeerSync

  // ---------------------------------------------------------------- one sync, any order

  ghost predicate Converged(d: Peers, want: Desired) {
    forall k :: Settled(d, want, k)
  }

  /** Every key is settled or still has its entry to come. */
  ghost predicate Covered(d: Peers, want: Desired, todo: seq<PeerConfig>) {
    forall k :: Settled(d, want, k) || HasEntry(todo, k)
  }

  /** The entries to come lead towards `want`, and no update will find its peer missing. */
  ghost predicate Sound(d: Peers, want: Desired, todo: seq<PeerConfig>) {
    forall i :: 0 <= i < |todo| ==>
      TowardsWant(todo[i], want) && (todo[i].updateOnly ==> todo[i].publicKey in d && todo[i].publicKey in want)
  }

  lemma DifferenceIsSound(have: Peers, want: Desired, config: seq<PeerConfig>)
    requires WellFormed(want) && Exclusive(have) && IsDifference(config, have, want)
    ensures Covered(have, want, config) && Sound(have, want, config)
  {
    forall k | !HasEntry(config, k) ensures Settled(have, want, k) {
      NoEntryIsSettled(k, have, want);
    }
    forall i | 0 <= i < |config| ensures TowardsWant(config[i], want) {
      EmittedTowardsWant(config[i].publicKey, have, want);
    }
  }

  /** An entry, of this sync or of another one towards the same map, settles its own key,
      disturbs no settled key and keeps every pending entry sound. */
  lemma EntryStep(d: Peers, want: Desired, c: PeerConfig, todo: seq<PeerConfig>)
    requires WellFormed(want) && Sound(d, want, [c]) && Sound(d, want, todo)
    ensures Sound(Apply(d, c), want, todo)
    ensures forall k :: Settled(d, want, k) || k == c.publicKey ==> Settled(Apply(d, c), want, k)
  {
    assert [c][0] == c;
    forall k | Settled(d, want, k) || k == c.publicKey ensures Settled(Apply(d, c), want, k) {
      if k == c.publicKey {
        EntrySettlesItsKey(d, c, want);
      } else {
        EntryKeepsSettled(d, c, want, k);
      }
    }
    if c.publicKey in want && (c.publicKey in d || !c.updateOnly) {
      SetPeerEffect(d, c);
    }
  }

  lemma HeadOrTail(c: PeerConfig, rest: seq<PeerConfig>, k: Key)
    requires HasEntry([c] + rest, k) && k != c.publicKey
    ensures HasEntry(rest, k)
  {
    var j :| 0 <= j < |[c] + rest| && ([c] + rest)[j].publicKey == k;
    assert rest[j - 1].publicKey == k;
  }

  /** The device is on its way: what is not right yet is still to come. */
  ghost predicate Progress(d: Peers, want: Desired, todo: seq<PeerConfig>) {
    Exclusive(d) && Covered(d, want, todo) && Sound(d, want, todo)
  }

  lemma HeadProgress(d: Peers, want: Desired, c: PeerConfig, rest: seq<PeerConfig>)
    requires WellFormed(want)
    ensures Progress(d, want, [c] + rest) ==> Progress(Apply(d, c), want, rest)
  {
    if Progress(d, want, [c] + rest) {
      assert ([c] + rest)[0] == c;
      assert forall j :: 0 <= j < |rest| ==> rest[j] == ([c] + rest)[j + 1];
      EntryStep(d, want, c, rest);
      ApplyKeepsExclusive(d, c);
      forall k | HasEntry([c] + rest, k) && k != c.publicKey ensures HasEntry(rest, k) {
        HeadOrTail(c, rest, k);
      }
    }
  }

  lemma OneMoreApplied(d: Peers, config: seq<PeerConfig>, i: nat)
    requires i < |config|
    ensures ApplyAll(d, config[..i + 1]) == Apply(ApplyAll(d, config[..i]), config[i])
    ensures config[i..] == [config[i]] + config[i + 1..]
  {
    assert config[..i + 1][..i] == config[..i];
  }

  lemma {:induction false} PrefixProgress(have: Peers, want: Desired, config: seq<PeerConfig>, i: nat)
    requires WellFormed(want) && Exclusive(have) && IsDifference(config, have, want) && i <= |config|
    ensures Progress(ApplyAll(have, config[..i]), want, config[i..])
  {
    if i == 0 {
      assert config[..0] == [] && config[0..] == config;
      DifferenceIsSound(have, want, config);
    } else {
      PrefixProgress(have, want, config, i - 1);
      OneMoreApplied(have, config, i - 1);
      HeadProgress(ApplyAll(have, config[..i - 1]), want, config[i - 1], config[i..]);
    }
  }

  lemma ConvergedMeans(d: Peers, want: Desired)
    requires Converged(d, want)
    ensures d.Keys == want.Keys
    ensures forall k :: k in want ==> Some(d[k].psk) == want[k].psk
    ensures forall k, n :: Holds(d, k, n) ==> k in want && n in want[k].allowed
    ensures forall k, n :: k in want && n in want[k].allowed ==> HeldByWanter(d, want, n)
    ensures forall k :: Alone(want, k) ==> d[k].allowed == Settle(want[k].allowed)
  {
    forall k ensures k in d <==> k in want {
      assert Settled(d, want, k);
    }
    forall k | k in want
      ensures Some(d[k].psk) == want[k].psk
      ensures forall n :: Holds(d, k, n) ==> n in want[k].allowed
      ensures forall n :: n in want[k].allowed ==> HeldByWanter(d, want, n)
      ensures Alone(want, k) ==> d[k].allowed == Settle(want[k].allowed)
    {
      assert Settled(d, want, k);
    }
  }

  /** For every device and every desired map, with no disjointness assumed: once the difference
      is applied, in any order, the device has exactly the desired keys with their preshared
      keys; no peer holds an address it does not want; every desired address has exactly one
      holder, and that holder wants it. */
  lemma SyncConvergesInAnyOrder(have: Peers, want: Desired, config: seq<PeerConfig>)
    requires WellFormed(want) && Exclusive(have) && IsDifference(config, have, want)
    ensures var d := ApplyAll(have, config);
            && d.Keys == want.Keys
            && (forall k :: k in want ==> Some(d[k].psk) == want[k].psk)
            && (forall k, n :: Holds(d, k, n) ==> k in want && n in want[k].allowed)
            && (forall k, n :: k in want && n in want[k].allowed ==> HeldByWanter(d, want, n))
            && (forall j, k, n :: Holds(d, j, n) && Holds(d, k, n) ==> j == k)
            && (forall k :: Alone(want, k) ==> d[k].allowed == Settle(want[k].allowed))
    ensures Converged(ApplyAll(have, config), want) && Exclusive(ApplyAll(have, config))
  {
    PrefixProgress(have, want, config, |config|);
    assert config[..|config|] == config;
    var d := ApplyAll(have, config);
    forall k ensures Settled(d, want, k) {
      assert !HasEntry(config[|config|..], k);
    }
    ConvergedMeans(d, want);
  }

  ghost predicate Clean(want: Desired) {
    forall k :: k in want ==> Alone(want, k) && NoDuplicates(want[k].allowed)
  }

  ghost predicate Matches(d: Peers, want: Desired) {
    d.Keys == want.Keys
    && forall k :: k in want ==> Some(d[k].psk) == want[k].psk && d[k].allowed == want[k].allowed
  }

  /** The device a sync leaves equals the desired state, lists and order included, exactly when
      no address is asked for twice. */
  lemma ExactExactlyWhenClean(d: Peers, want: Desired)
    requires Converged(d, want) && Exclusive(d)
    ensures Matches(d, want) <==> Clean(want)
  {
    ConvergedMeans(d, want);
    if Matches(d, want) {
      forall k | k in want ensures Alone(want, k) && NoDuplicates(want[k].allowed) {
        forall j, n | j in want && n in want[j].allowed && n in want[k].allowed ensures j == k {
          assert Holds(d, j, n) && Holds(d, k, n);
        }
      }
    }
  }

  /** The difference is empty exactly when device and desired map agree on keys, preshared keys
      and ordered allowed IPs. */
  lemma EmptyDifferenceIff(have: Peers, want: Desired, config: seq<PeerConfig>)
    requires WellFormed(want) && IsDifference(config, have, want)
    ensures config == [] <==> Matches(have, want)
  {
    if config == [] {
      forall k ensures k in have <==> k in want
               ensures k in want ==> !Differs(want[k], have[k]) {
        assert !HasEntry(config, k);
        assert EntryFor(k, have, want).None?;
      }
    } else {
      var k := config[0].publicKey;
      assert EntryFor(k, have, want) == Some(config[0]);
      assert k in have.Keys && k in want.Keys ==> Differs(want[k], have[k]);
    }
  }

  /** A second sync with the same configuration sends nothing exactly when no address is asked
      for twice; otherwise every later sync keeps rewriting peers. */
  lemma SecondSyncIsSilentIff(have: Peers, want: Desired, first: seq<PeerConfig>, second: seq<PeerConfig>)
    requires WellFormed(want) && Exclusive(have)
    requires IsDifference(first, have, want) && IsDifference(second, ApplyAll(have, first), want)
    ensures second == [] <==> Clean(want)
  {
    SyncConvergesInAnyOrder(have, want, first);
    ExactExactlyWhenClean(ApplyAll(have, first), want);
    EmptyDifferenceIff(ApplyAll(have, first), want, second);
  }
}
