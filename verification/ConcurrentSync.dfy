/** Peer syncs started by two controllers without a lock between them: each fetches a
    configuration, takes a snapshot of the device, and later sends its entries one by one. Any
    number of syncs may be in flight, in any interleaving, and any of them may be cut short. */
module ConcurrentSync {
  import opened Nets
  import opened Device
  import opened PeerSync
  import opened PeerSyncTheorems

  datatype Flight = Flight(want: Desired, todo: seq<PeerConfig>)

  datatype World = World(device: Peers, flights: map<nat, Flight>, completed: seq<Desired>)

  datatype Action =
    | Begin(id: nat, want: Desired, config: seq<PeerConfig>)
    | Send(id: nat)
    | Finish(id: nat)
    | Abort(id: nat)

  ghost predicate Step(w: World, a: Action, w': World) {
    match a
    case Begin(id, want, config) =>
      && id !in w.flights && WellFormed(want) && IsDifference(config, w.device, want)
      && w' == w.(flights := w.flights[id := Flight(want, config)])
    case Send(id) =>
      && id in w.flights && w.flights[id].todo != []
      && w' == w.(device := Apply(w.device, w.flights[id].todo[0]),
                  flights := w.flights[id := w.flights[id].(todo := w.flights[id].todo[1..])])
    case Finish(id) =>
      && id in w.flights && w.flights[id].todo == []
      && w' == w.(flights := w.flights - {id}, completed := w.completed + [w.flights[id].want])
    case Abort(id) =>
      && id in w.flights && w' == w.(flights := w.flights - {id})
  }

  ghost predicate Execution(ws: seq<World>, acts: seq<Action>) {
    && |ws| == |acts| + 1
    && Exclusive(ws[0].device) && ws[0].flights == map[] && ws[0].completed == []
    && forall i :: 0 <= i < |acts| ==> Step(ws[i], acts[i], ws[i + 1])
  }

  /** Every sync of the execution fetched the configuration that yields `want`. */
  ghost predicate OneConfiguration(acts: seq<Action>, want: Desired) {
    forall i :: 0 <= i < |acts| && acts[i].Begin? ==> acts[i].want == want
  }

  // ---------------------------------------------------------------- one configuration

  ghost predicate Invariant(w: World, want: Desired) {
    && Exclusive(w.device)
    && (forall id :: id in w.flights ==>
          && w.flights[id].want == want
          && Covered(w.device, want, w.flights[id].todo)
          && Sound(w.device, want, w.flights[id].todo))
    && (w.completed != [] ==> Converged(w.device, want))
  }

  lemma SendKeepsInvariant(w: World, id: nat, w': World, want: Desired)
    requires WellFormed(want) && Invariant(w, want) && Step(w, Send(id), w')
    ensures Invariant(w', want)
    ensures forall k :: Settled(w.device, want, k) ==> Settled(w'.device, want, k)
  {
    var c, rest := w.flights[id].todo[0], w.flights[id].todo[1..];
    assert w.flights[id].todo == [c] + rest;
    assert forall i :: 0 <= i < |rest| ==> rest[i] == w.flights[id].todo[i + 1];
    ApplyKeepsExclusive(w.device, c);
    EntryStep(w.device, want, c, rest);
    forall f | f in w'.flights
      ensures Sound(w'.device, want, w'.flights[f].todo) && Covered(w'.device, want, w'.flights[f].todo)
    {
      EntryStep(w.device, want, c, w'.flights[f].todo);
      forall k | HasEntry([c] + rest, k) && k != c.publicKey ensures HasEntry(rest, k) {
        HeadOrTail(c, rest, k);
      }
    }
    if w.completed != [] {
      forall k ensures Settled(w'.device, want, k) {
        assert Settled(w.device, want, k);
      }
    }
  }

  lemma StepKeepsInvariant(w: World, a: Action, w': World, want: Desired)
    requires WellFormed(want) && Invariant(w, want) && Step(w, a, w')
    requires a.Begin? ==> a.want == want
    ensures Invariant(w', want)
    ensures forall k :: Settled(w.device, want, k) ==> Settled(w'.device, want, k)
  {
    match a
    case Begin(id, _, config) =>
      DifferenceIsSound(w.device, want, config);
    case Send(id) =>
      SendKeepsInvariant(w, id, w', want);
    case Finish(id) =>
      forall k ensures Settled(w.device, want, k) {
        assert !HasEntry(w.flights[id].todo, k);
      }
    case Abort(id) =>
  }

  lemma {:induction false} ExecutionKeepsInvariant(ws: seq<World>, acts: seq<Action>, want: Desired, i: nat)
    requires WellFormed(want) && Execution(ws, acts) && OneConfiguration(acts, want) && i < |ws|
    ensures Invariant(ws[i], want)
  {
    if i > 0 {
      ExecutionKeepsInvariant(ws, acts, want, i - 1);
      StepKeepsInvariant(ws[i - 1], acts[i - 1], ws[i], want);
    }
  }

  /** Whatever the interleaving, from the first completed sync on the device is as desired, and
      no step, however stale its snapshot, unsettles a key that is right. */
  lemma InterleavedSyncsConverge(ws: seq<World>, acts: seq<Action>, want: Desired)
    requires WellFormed(want) && Execution(ws, acts) && OneConfiguration(acts, want)
    ensures forall i :: 0 <= i < |ws| && ws[i].completed != [] ==> Converged(ws[i].device, want)
    ensures forall i, k :: 0 <= i < |acts| && Settled(ws[i].device, want, k) ==> Settled(ws[i + 1].device, want, k)
    ensures forall i :: 0 <= i < |ws| && ws[i].completed != [] && Clean(want) ==> Matches(ws[i].device, want)
  {
    forall i | 0 <= i < |ws| && ws[i].completed != []
      ensures Converged(ws[i].device, want) && (Clean(want) ==> Matches(ws[i].device, want))
    {
      ExecutionKeepsInvariant(ws, acts, want, i);
      ExactExactlyWhenClean(ws[i].device, want);
    }
    forall i, k | 0 <= i < |acts| && Settled(ws[i].device, want, k) ensures Settled(ws[i + 1].device, want, k) {
      ExecutionKeepsInvariant(ws, acts, want, i);
      StepKeepsInvariant(ws[i], acts[i], ws[i + 1], want);
    }
  }

  // ---------------------------------------------------------------- the newest configuration

  /** In every execution, with any configurations in flight: the entries of a sync lead towards the
      configuration it fetched, though they may be outdated. */
  ghost predicate Honest(w: World) {
    && Exclusive(w.device)
    && forall id :: id in w.flights ==> HonestFlight(w.flights[id])
  }

  ghost predicate HonestFlight(f: Flight) {
    WellFormed(f.want) && forall i :: 0 <= i < |f.todo| ==> TowardsWant(f.todo[i], f.want)
  }

  lemma {:induction false} ExecutionIsHonest(ws: seq<World>, acts: seq<Action>, i: nat)
    requires Execution(ws, acts) && i < |ws|
    ensures Honest(ws[i])
  {
    if i > 0 {
      ExecutionIsHonest(ws, acts, i - 1);
      var w := ws[i - 1];
      assert Step(w, acts[i - 1], ws[i]);
      match acts[i - 1]
      case Begin(_, want, config) =>
        DifferenceIsSound(w.device, want, config);
      case Send(id) =>
        ApplyKeepsExclusive(w.device, w.flights[id].todo[0]);
      case Finish(_) =>
      case Abort(_) =>
    }
  }

  /** An entry towards `want`, however outdated, disturbs no key that is right, and removes none that
      is wanted. */
  lemma AnyEntryKeepsSettled(d: Peers, c: PeerConfig, want: Desired)
    requires WellFormed(want) && TowardsWant(c, want)
    ensures forall k :: Settled(d, want, k) ==> Settled(Apply(d, c), want, k)
    ensures forall todo :: Sound(d, want, todo) ==> Sound(Apply(d, c), want, todo)
  {
    forall k | Settled(d, want, k) ensures Settled(Apply(d, c), want, k) {
      if k == c.publicKey {
        EntrySettlesItsKey(d, c, want);
      } else {
        EntryKeepsSettled(d, c, want, k);
      }
    }
    if c.publicKey in want && (c.publicKey in d || !c.updateOnly) {
      SetPeerEffect(d, c);
    }
  }

  /** The sync is of `want`, and what is not right yet it will still put right. */
  ghost predicate OnCourse(w: World, id: nat, want: Desired) {
    && id in w.flights && w.flights[id].want == want
    && Progress(w.device, want, w.flights[id].todo)
  }

  /** Every entry sent from step `b` on is of a sync that fetched the configuration. */
  ghost predicate OnlySends(ws: seq<World>, acts: seq<Action>, want: Desired, b: nat)
    requires |ws| > |acts|
  {
    forall i :: b <= i < |acts| && acts[i].Send? ==>
      acts[i].id in ws[i].flights && ws[i].flights[acts[i].id].want == want
  }

  lemma StepKeepsCourse(w: World, a: Action, w': World, id: nat, want: Desired)
    requires WellFormed(want) && Honest(w) && Step(w, a, w') && OnCourse(w, id, want)
    requires a.Send? ==> w.flights[a.id].want == want
    requires a != Finish(id) && a != Abort(id)
    ensures OnCourse(w', id, want)
  {
    if a == Send(id) {
      var todo := w.flights[id].todo;
      assert todo == [todo[0]] + todo[1..];
      HeadProgress(w.device, want, todo[0], todo[1..]);
    } else if a.Send? {
      ApplyKeepsExclusive(w.device, w.flights[a.id].todo[0]);
      AnyEntryKeepsSettled(w.device, w.flights[a.id].todo[0], want);
    }
  }

  lemma BeginsOnCourse(w: World, id: nat, want: Desired, config: seq<PeerConfig>, w': World)
    requires Honest(w) && Step(w, Begin(id, want, config), w')
    ensures OnCourse(w', id, want) && WellFormed(want)
  {
    DifferenceIsSound(w.device, want, config);
  }

  lemma OnCourseAt(ws: seq<World>, acts: seq<Action>, want: Desired, id: nat, b: nat, i: nat)
    requires Execution(ws, acts) && b < i < |acts| && OnlySends(ws, acts, want, b)
    requires WellFormed(want) && acts[i] != Finish(id) && acts[i] != Abort(id)
    ensures OnCourse(ws[i], id, want) ==> OnCourse(ws[i + 1], id, want)
  {
    ExecutionIsHonest(ws, acts, i);
    assert Step(ws[i], acts[i], ws[i + 1]);
    if OnCourse(ws[i], id, want) {
      StepKeepsCourse(ws[i], acts[i], ws[i + 1], id, want);
    }
  }

  lemma {:induction false} StaysOnCourse(ws: seq<World>, acts: seq<Action>, want: Desired, config: seq<PeerConfig>,
                                         id: nat, b: nat, i: nat)
    requires Execution(ws, acts) && b < i < |ws| && acts[b] == Begin(id, want, config) && OnlySends(ws, acts, want, b)
    requires forall j :: b < j < i ==> acts[j] != Finish(id) && acts[j] != Abort(id)
    ensures OnCourse(ws[i], id, want) && WellFormed(want)
    decreases i - b
  {
    if i == b + 1 {
      ExecutionIsHonest(ws, acts, b);
      assert Step(ws[b], acts[b], ws[i]);
      BeginsOnCourse(ws[b], id, want, config, ws[i]);
    } else {
      StaysOnCourse(ws, acts, want, config, id, b, i - 1);
      OnCourseAt(ws, acts, want, id, b, i - 1);
    }
  }

  lemma {:induction false} StaysConverged(ws: seq<World>, acts: seq<Action>, want: Desired, b: nat, i: nat)
    requires Execution(ws, acts) && b <= i < |ws| && OnlySends(ws, acts, want, b)
    requires WellFormed(want) && Converged(ws[b].device, want)
    ensures Converged(ws[i].device, want)
    decreases i - b
  {
    if b < i {
      StaysConverged(ws, acts, want, b, i - 1);
      ExecutionIsHonest(ws, acts, i - 1);
      assert Step(ws[i - 1], acts[i - 1], ws[i]);
      if acts[i - 1].Send? {
        AnyEntryKeepsSettled(ws[i - 1].device, ws[i - 1].flights[acts[i - 1].id].todo[0], want);
      }
    }
  }

  /** With any configurations in flight, from any device: once no sync of another configuration sends
      any more, the first sync of the configuration that begins and finishes leaves the device as
      desired, and so it stays, whatever outdated entries other syncs of it still send. */
  lemma NewestConfigurationWins(ws: seq<World>, acts: seq<Action>, want: Desired, config: seq<PeerConfig>,
                                id: nat, b: nat, e: nat, i: nat)
    requires Execution(ws, acts) && b < e < |acts| && e < i < |ws|
    requires acts[b] == Begin(id, want, config) && acts[e] == Finish(id) && OnlySends(ws, acts, want, b)
    requires forall j :: b < j < e ==> acts[j] != Finish(id) && acts[j] != Abort(id)
    ensures Converged(ws[i].device, want) && (Clean(want) ==> Matches(ws[i].device, want))
  {
    StaysOnCourse(ws, acts, want, config, id, b, e);
    assert Step(ws[e], acts[e], ws[e + 1]);
    forall k ensures Settled(ws[e].device, want, k) {
      assert !HasEntry(ws[e].flights[id].todo, k);
    }
    StaysConverged(ws, acts, want, e, i);
    ExecutionIsHonest(ws, acts, i);
    ExactExactlyWhenClean(ws[i].device, want);
  }

  // ---------------------------------------------------------------- changing configurations

  ghost predicate HeldElsewhere(d: Peers, k: Key, n: Net) {
    exists h :: h != k && Holds(d, h, n)
  }

  /** What a left-over entry of another configuration must be like to do no harm on the device: it
      agrees on the key's preshared key, it lists no unwanted address, what it does not list is with
      another peer, and a list that nobody shares is the same list. */
  ghost predicate HarmlessOn(d: Peers, c: PeerConfig, want: Desired) {
    var k := c.publicKey;
    if k in want then
      && !c.remove && c.psk == want[k].psk
      && (forall n :: n in c.allowed ==> n in want[k].allowed)
      && (forall n :: n in want[k].allowed && n !in c.allowed ==> HeldElsewhere(d, k, n))
      && (Alone(want, k) ==> Settle(c.allowed) == Settle(want[k].allowed))
    else c.remove || c.updateOnly
  }

  /** For every converged device and any two configurations: a left-over entry of the one leaves the
      device converged to the other if and only if it is harmless. */
  lemma StaleEntryHarmlessIff(d: Peers, want: Desired, other: Desired, c: PeerConfig)
    requires WellFormed(want) && WellFormed(other) && TowardsWant(c, other)
    requires Converged(d, want) && Exclusive(d)
    ensures Converged(Apply(d, c), want) <==> HarmlessOn(d, c, want)
  {
    var k, d' := c.publicKey, Apply(d, c);
    assert Settled(d, want, k);
    if k in want && !c.remove {
      SetPeerEffect(d, c);
      if Converged(d', want) {
        ConvergedIsHarmless(d, want, c);
      }
      if HarmlessOn(d, c, want) {
        HarmlessStaysConverged(d, want, c);
      }
    } else if HarmlessOn(d, c, want) {
      assert d' == d;
    } else {
      assert !Settled(d', want, k);
    }
  }

  lemma ConvergedIsHarmless(d: Peers, want: Desired, c: PeerConfig)
    requires WellFormed(want) && Converged(d, want)
    requires c.publicKey in want && !c.remove && c.replaceAllowedIPs && c.psk.Some?
    requires Converged(Apply(d, c), want)
    ensures HarmlessOn(d, c, want)
  {
    var k, d' := c.publicKey, Apply(d, c);
    assert Settled(d, want, k) && Settled(d', want, k);
    SetPeerEffect(d, c);
    forall n | n in c.allowed ensures n in want[k].allowed {
      assert Holds(d', k, n);
    }
    forall n | n in want[k].allowed && n !in c.allowed ensures HeldElsewhere(d, k, n) {
      var h :| Holds(d', h, n) && h in want && n in want[h].allowed;
      assert Holds(d, h, n);
    }
  }

  lemma HarmlessStaysConverged(d: Peers, want: Desired, c: PeerConfig)
    requires WellFormed(want) && Converged(d, want) && Exclusive(d)
    requires c.publicKey in want && !c.remove && c.replaceAllowedIPs && c.psk.Some? && HarmlessOn(d, c, want)
    ensures Converged(Apply(d, c), want)
  {
    var k, d' := c.publicKey, Apply(d, c);
    assert Settled(d, want, k);
    SetPeerEffect(d, c);
    assert forall n :: n in d'[k].allowed <==> n in c.allowed;
    forall j ensures Settled(d', want, j) {
      assert Settled(d, want, j);
      if j in want {
        forall n | n in want[j].allowed ensures HeldByWanter(d', want, n) {
          HarmlessKeepsHolder(d, want, c, j, n);
        }
        assert forall n :: j != k && Holds(d', j, n) ==> Holds(d, j, n);
        if Alone(want, j) && j != k {
          forall n | n in c.allowed ensures n !in d[j].allowed {
            assert n in want[k].allowed;
            assert n in d[j].allowed ==> Holds(d, j, n);
          }
        }
      }
    }
  }

  lemma HarmlessKeepsHolder(d: Peers, want: Desired, c: PeerConfig, j: Key, n: Net)
    requires WellFormed(want) && Converged(d, want) && Exclusive(d) && j in want && n in want[j].allowed
    requires c.publicKey in want && !c.remove && c.replaceAllowedIPs && c.psk.Some? && HarmlessOn(d, c, want)
    ensures HeldByWanter(Apply(d, c), want, n)
  {
    var k, d' := c.publicKey, Apply(d, c);
    assert Settled(d, want, k) && Settled(d, want, j);
    SetPeerEffect(d, c);
    if n in c.allowed {
      assert Holds(d', k, n);
    } else if n in want[k].allowed {
      var h :| h != k && Holds(d, h, n);
      assert Settled(d, want, h) && Holds(d', h, n);
    } else {
      var h :| Holds(d, h, n) && h in want && n in want[h].allowed;
      assert Holds(d', h, n);
    }
  }

  // ---------------------------------------------------------------- a whole left-over flight

  /** Where no address is shared, harmlessness is a matter of the entry alone. */
  predicate Harmless(c: PeerConfig, want: Desired) {
    if c.publicKey in want
    then !c.remove && c.psk == want[c.publicKey].psk && Settle(c.allowed) == Settle(want[c.publicKey].allowed)
    else c.remove || c.updateOnly
  }

  ghost predicate NothingShared(want: Desired) {
    forall k :: k in want ==> Alone(want, k)
  }

  lemma HarmlessAnywhere(d: Peers, c: PeerConfig, want: Desired)
    requires NothingShared(want)
    ensures HarmlessOn(d, c, want) <==> Harmless(c, want)
  {
    var k := c.publicKey;
    if k in want && Settle(c.allowed) == Settle(want[k].allowed) {
      assert forall n :: n in c.allowed <==> n in Settle(c.allowed);
      assert forall n :: n in want[k].allowed <==> n in Settle(want[k].allowed);
    }
  }

  /** What is left of a sync: one entry per key, all towards its own configuration. */
  ghost predicate LeftOver(todo: seq<PeerConfig>, other: Desired) {
    && (forall i, j :: 0 <= i < j < |todo| ==> todo[i].publicKey != todo[j].publicKey)
    && (forall i :: 0 <= i < |todo| ==> TowardsWant(todo[i], other))
  }

  lemma OtherEntryKeepsKey(d: Peers, c: PeerConfig, other: Desired, k: Key)
    requires WellFormed(other) && TowardsWant(c, other) && c.publicKey != k
    ensures k in Apply(d, c) <==> k in d
    ensures k in d && (forall n :: n in c.allowed ==> n !in d[k].allowed) ==> Apply(d, c)[k] == d[k]
  {
    if c.publicKey in other && (c.publicKey in d || !c.updateOnly) {
      SetPeerEffect(d, c);
    }
  }

  lemma {:induction false} LeftOverKeepsKey(d: Peers, todo: seq<PeerConfig>, other: Desired, k: Key)
    requires WellFormed(other) && LeftOver(todo, other) && forall i :: 0 <= i < |todo| ==> todo[i].publicKey != k
    ensures k in ApplyAll(d, todo) <==> k in d
  {
    if todo != [] {
      var n := |todo| - 1;
      LeftOverKeepsKey(d, todo[..n], other, k);
      OtherEntryKeepsKey(ApplyAll(d, todo[..n]), todo[n], other, k);
    }
  }

  /** The key is as the entry left it. */
  ghost predicate AsLeftBy(d: Peers, c: PeerConfig, want: Desired) {
    var k := c.publicKey;
    if k in want && c.remove then k !in d
    else k in d && (k in want ==> Some(d[k].psk) == c.psk && d[k].allowed == Settle(c.allowed))
  }

  lemma EntryLeaves(d: Peers, want: Desired, other: Desired, c: PeerConfig)
    requires WellFormed(want) && WellFormed(other) && TowardsWant(c, other) && !Harmless(c, want)
    requires c.publicKey in want ==> c.publicKey in d
    ensures AsLeftBy(Apply(d, c), c, want)
  {
    if !c.remove {
      SetPeerEffect(d, c);
    }
  }

  lemma HarmSurvives(d: Peers, want: Desired, other: Desired, c: PeerConfig, later: PeerConfig)
    requires WellFormed(other) && NothingShared(other) && TowardsWant(c, other) && TowardsWant(later, other)
    requires c.publicKey != later.publicKey && AsLeftBy(d, c, want)
    ensures AsLeftBy(Apply(d, later), c, want)
  {
    OtherEntryKeepsKey(d, later, other, c.publicKey);
    assert forall n :: n in later.allowed ==> n !in Settle(c.allowed);
  }

  lemma HarmArises(d: Peers, want: Desired, other: Desired, todo: seq<PeerConfig>, i: nat)
    requires WellFormed(want) && WellFormed(other) && LeftOver(todo, other)
    requires d.Keys == want.Keys && i < |todo| && !Harmless(todo[i], want)
    ensures AsLeftBy(ApplyAll(d, todo[..i + 1]), todo[i], want)
  {
    assert todo[..i + 1][..i] == todo[..i];
    LeftOverKeepsKey(d, todo[..i], other, todo[i].publicKey);
    EntryLeaves(ApplyAll(d, todo[..i]), want, other, todo[i]);
  }

  /** Later entries of the same sync repair nothing. */
  lemma {:induction false} HarmStays(d: Peers, want: Desired, other: Desired, todo: seq<PeerConfig>, i: nat, m: nat)
    requires WellFormed(other) && NothingShared(other) && LeftOver(todo, other) && i < m <= |todo|
    requires AsLeftBy(ApplyAll(d, todo[..i + 1]), todo[i], want)
    ensures AsLeftBy(ApplyAll(d, todo[..m]), todo[i], want)
  {
    if m > i + 1 {
      HarmStays(d, want, other, todo, i, m - 1);
      assert todo[..m][..m - 1] == todo[..m - 1];
      HarmSurvives(ApplyAll(d, todo[..m - 1]), want, other, todo[i], todo[m - 1]);
    }
  }

  lemma HarmUnsettles(d: Peers, want: Desired, c: PeerConfig)
    requires WellFormed(want) && NothingShared(want) && !Harmless(c, want) && AsLeftBy(d, c, want)
    ensures !Converged(d, want)
  {
    assert !Settled(d, want, c.publicKey);
  }

  /** A sync that fetched another configuration and still has entries to send: where neither
      configuration shares addresses, the device stays converged if and only if every one of the
      entries is harmless. */
  lemma StaleFlightHarmlessIff(d: Peers, want: Desired, other: Desired, todo: seq<PeerConfig>)
    requires WellFormed(want) && WellFormed(other) && NothingShared(want) && NothingShared(other)
    requires Converged(d, want) && Exclusive(d) && LeftOver(todo, other)
    ensures Converged(ApplyAll(d, todo), want) <==> forall i :: 0 <= i < |todo| ==> Harmless(todo[i], want)
  {
    if forall i :: 0 <= i < |todo| ==> Harmless(todo[i], want) {
      HarmlessFlightConverges(d, want, other, todo);
    } else {
      var i :| 0 <= i < |todo| && !Harmless(todo[i], want);
      ConvergedMeans(d, want);
      HarmArises(d, want, other, todo, i);
      HarmStays(d, want, other, todo, i, |todo|);
      assert todo[..|todo|] == todo;
      HarmUnsettles(ApplyAll(d, todo), want, todo[i]);
    }
  }

  lemma {:induction false} HarmlessFlightConverges(d: Peers, want: Desired, other: Desired, todo: seq<PeerConfig>)
    requires WellFormed(want) && WellFormed(other) && NothingShared(want) && LeftOver(todo, other)
    requires Converged(d, want) && Exclusive(d) && forall i :: 0 <= i < |todo| ==> Harmless(todo[i], want)
    ensures Converged(ApplyAll(d, todo), want) && Exclusive(ApplyAll(d, todo))
  {
    if todo != [] {
      var n := |todo| - 1;
      HarmlessFlightConverges(d, want, other, todo[..n]);
      var before := ApplyAll(d, todo[..n]);
      HarmlessAnywhere(before, todo[n], want);
      StaleEntryHarmlessIff(before, want, other, todo[n]);
      ApplyKeepsExclusive(before, todo[n]);
    }
  }

  function TwoPeers(a: Key, b: Key, n: Net): Peers {
    map[a := Peer(NO_PSK, KEEPALIVE, [n]), b := Peer(NO_PSK, KEEPALIVE, [])]
  }

  lemma NoMembers(nets: seq<Net>)
    ensures (forall n :: n !in nets) ==> nets == []
  {
    if nets != [] {
      assert nets[0] in nets;
    }
  }

  lemma AddressMoves(a: Key, b: Key, n: Net)
    requires a != b
    ensures Apply(TwoPeers(b, a, n), ConfigEntry(NO_PSK, a, [n])) == TwoPeers(a, b, n)
  {
    var after := Apply(TwoPeers(b, a, n), ConfigEntry(NO_PSK, a, [n]));
    SetPeerEffect(TwoPeers(b, a, n), ConfigEntry(NO_PSK, a, [n]));
    assert after[a].allowed == [n];
    NoMembers(after[b].allowed);
  }

  /** With shared addresses a later entry of the same sync can repair the harm of an earlier one:
      the other configuration gives the address to both peers, and the second entry takes it back. */
  lemma SharedAddressIsRepaired(a: Key, b: Key, n: Net)
    requires a != b
    ensures var want: Desired := map[a := ConfigEntry(NO_PSK, a, []), b := ConfigEntry(NO_PSK, b, [n])];
            var todo := [ConfigEntry(NO_PSK, a, [n]), ConfigEntry(NO_PSK, b, [n])];
            !Harmless(todo[0], want) && ApplyAll(TwoPeers(b, a, n), todo) == TwoPeers(b, a, n)
  {
    var todo := [ConfigEntry(NO_PSK, a, [n]), ConfigEntry(NO_PSK, b, [n])];
    assert n in Settle([n]);
    AddressMoves(a, b, n);
    AddressMoves(b, a, n);
    OneMoreApplied(TwoPeers(b, a, n), todo, 1);
    OneMoreApplied(TwoPeers(b, a, n), todo, 0);
    assert todo[..2] == todo;
  }

  /** With two configurations in flight the older one can win: the sync that fetched the empty
      peer list sends its removal after the sync that fetched the newer list has completed. */
  lemma OlderConfigurationCanWin(k: Key, n: Net) returns (ws: seq<World>, acts: seq<Action>, newer: Desired)
    ensures WellFormed(newer) && Clean(newer) && Execution(ws, acts)
    ensures |ws| > 1 && ws[|ws| - 1].flights == map[]
    ensures newer in ws[|ws| - 2].completed && !Converged(ws[|ws| - 1].device, newer)
  {
    var entry := ConfigEntry(NO_PSK, k, [n]);
    newer := map[k := entry];
    var d := map[k := Peer(NO_PSK, KEEPALIVE, [n])];
    var none: Desired := map[];
    var w0 := World(d, map[], []);
    var w1 := w0.(flights := map[0 := Flight(none, [RemoveEntry(k)])]);
    var w2 := w1.(flights := w1.flights[1 := Flight(newer, [])]);
    var w3 := w2.(flights := w2.flights - {1}, completed := [newer]);
    var w4 := w3.(device := Apply(d, RemoveEntry(k)), flights := w3.flights[0 := Flight(none, [])]);
    var w5 := w4.(flights := w4.flights - {0}, completed := [newer, none]);
    ws := [w0, w1, w2, w3, w4, w5];
    acts := [Begin(0, none, [RemoveEntry(k)]), Begin(1, newer, []), Finish(1), Send(0), Finish(0)];
    assert IsDifference([RemoveEntry(k)], d, none) by {
      assert [RemoveEntry(k)][0].publicKey == k;
    }
    assert w5.flights == map[];
    assert !Settled(w5.device, newer, k);
    assert ws[4].completed[0] == newer;
    assert Step(w0, acts[0], w1) && Step(w1, acts[1], w2) && Step(w2, acts[2], w3);
    assert w3.flights[0].todo[1..] == [];
    assert Step(w3, acts[3], w4) && Step(w4, acts[4], w5);
  }

  // ---------------------------------------------------------------- device history

  ghost predicate KeptAlive(d: Peers) {
    forall k :: k in d ==> d[k].keepalive == KEEPALIVE
  }

  ghost predicate SetsKeepalive(c: PeerConfig) {
    exists want :: WellFormed(want) && TowardsWant(c, want)
  }

  lemma EntryKeepsAlive(d: Peers, c: PeerConfig)
    requires KeptAlive(d) && SetsKeepalive(c)
    ensures KeptAlive(Apply(d, c))
  {
    var want :| WellFormed(want) && TowardsWant(c, want);
    if c.publicKey in want && (c.publicKey in d || !c.updateOnly) {
      SetPeerEffect(d, c);
    }
  }

  lemma DifferenceSetsKeepalive(config: seq<PeerConfig>, have: Peers, want: Desired)
    requires WellFormed(want) && IsDifference(config, have, want)
    ensures forall i :: 0 <= i < |config| ==> SetsKeepalive(config[i])
  {
    forall i | 0 <= i < |config| ensures SetsKeepalive(config[i]) {
      EmittedTowardsWant(config[i].publicKey, have, want);
    }
  }

  ghost predicate AliveInvariant(w: World) {
    && Exclusive(w.device) && KeptAlive(w.device)
    && (forall id, i :: id in w.flights && 0 <= i < |w.flights[id].todo| ==> SetsKeepalive(w.flights[id].todo[i]))
  }

  /** On a device that started empty every peer has the 60 s keepalive at every moment, under
      any interleaving of syncs with any configurations, although no sync ever compares it. */
  lemma {:induction false} KeepaliveOverEveryExecution(ws: seq<World>, acts: seq<Action>, i: nat)
    requires Execution(ws, acts) && ws[0].device == map[] && i < |ws|
    ensures AliveInvariant(ws[i])
  {
    if i > 0 {
      KeepaliveOverEveryExecution(ws, acts, i - 1);
      var w, w' := ws[i - 1], ws[i];
      assert Step(w, acts[i - 1], w');
      match acts[i - 1]
      case Begin(id, want, config) =>
        DifferenceSetsKeepalive(config, w.device, want);
      case Send(id) =>
        ApplyKeepsExclusive(w.device, w.flights[id].todo[0]);
        EntryKeepsAlive(w.device, w.flights[id].todo[0]);
      case Finish(_) =>
      case Abort(_) =>
    }
  }

  /** Syncs one after the other with changing peer lists, each sending the first `sent[i]` of its
      entries before it stops. */
  ghost predicate History(env: Parsers, peers: seq<seq<AccessPeer>>, configs: seq<seq<PeerConfig>>,
                          sent: seq<nat>, ds: seq<Peers>)
  {
    && |ds| == |peers| + 1 && |configs| == |peers| == |sent| && ds[0] == map[]
    && forall i :: 0 <= i < |peers| ==>
         && IsDifference(configs[i], ds[i], DesiredPeers(env, peers[i]))
         && sent[i] <= |configs[i]|
         && ds[i + 1] == ApplyAll(ds[i], configs[i][..sent[i]])
  }

  lemma {:induction false} PrefixKeepsAlive(d: Peers, config: seq<PeerConfig>)
    requires Exclusive(d) && KeptAlive(d) && forall i :: 0 <= i < |config| ==> SetsKeepalive(config[i])
    ensures Exclusive(ApplyAll(d, config)) && KeptAlive(ApplyAll(d, config))
  {
    if config != [] {
      var n := |config| - 1;
      PrefixKeepsAlive(d, config[..n]);
      ApplyKeepsExclusive(ApplyAll(d, config[..n]), config[n]);
      EntryKeepsAlive(ApplyAll(d, config[..n]), config[n]);
    }
  }

  /** From the freshly created device, whatever earlier syncs did or left undone: after a
      successful sync the device is what its own peer list asks for, no older key remains, and
      every keepalive is set. */
  lemma {:induction false} DeviceHistory(env: Parsers, peers: seq<seq<AccessPeer>>, configs: seq<seq<PeerConfig>>,
                                         sent: seq<nat>, ds: seq<Peers>, i: nat)
    requires History(env, peers, configs, sent, ds) && i < |ds|
    ensures Exclusive(ds[i]) && KeptAlive(ds[i])
    ensures i > 0 && sent[i - 1] == |configs[i - 1]| ==>
              Converged(ds[i], DesiredPeers(env, peers[i - 1])) && ds[i].Keys == DesiredPeers(env, peers[i - 1]).Keys
  {
    if i > 0 {
      DeviceHistory(env, peers, configs, sent, ds, i - 1);
      var want := DesiredPeers(env, peers[i - 1]);
      DesiredIsWellFormed(env, peers[i - 1]);
      DifferenceSetsKeepalive(configs[i - 1], ds[i - 1], want);
      PrefixKeepsAlive(ds[i - 1], configs[i - 1][..sent[i - 1]]);
      if sent[i - 1] == |configs[i - 1]| {
        assert configs[i - 1][..sent[i - 1]] == configs[i - 1];
        SyncConvergesInAnyOrder(ds[i - 1], want, configs[i - 1]);
      }
    }
  }
}
