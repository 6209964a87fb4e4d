/** The firewall in terms of its configuration: the meaning of the chain after syncs, and over
    whole histories of changing configurations. */
module FirewallHistory {
  import AddressIndex
  import opened Nets
  import opened Comments
  import opened Firewall
  import opened FirewallTheorems
  import opened FirewallRepeats
  import opened FirewallConfig

  /** Networks print as address texts, and so do the DNS servers that are used. */
  ghost predicate TextsPrint(show: Show, config: Config) {
    && (forall n :: IsAddressText(show(n)))
    && (forall peer :: peer in config.peers && peer.status.Some? && |peer.status.value.dns| > 0
                       ==> IsAddressText(peer.status.value.dns[0]))
  }

  ghost predicate Writable(items: seq<Item>) {
    forall it :: it in items ==> IsComment(it.comment) && |it.adds| <= 2
  }

  lemma {:induction false} NetItemsWritable(show: Show, src: Option<Addr>, nets: seq<Net>)
    requires forall n :: IsAddressText(show(n))
    ensures Writable(NetItems(show, src, nets))
  {
    if nets != [] {
      NetItemsWritable(show, src, nets[..|nets| - 1]);
      CommentShape(SourceText(show, src), show(nets[|nets| - 1]));
    }
  }

  lemma {:induction false} NameItemsWritable(show: Show, src: Option<Addr>, byName: map<string, seq<Net>>,
                                             names: seq<string>)
    requires forall n :: IsAddressText(show(n))
    ensures Writable(NameItems(show, src, byName, names))
  {
    if names != [] {
      NameItemsWritable(show, src, byName, names[..|names| - 1]);
      NetItemsWritable(show, src, NetsOf(byName, names[|names| - 1]));
    }
  }

  lemma {:induction false} AddrsItemsWritable(env: Parsers, show: Show, byName: map<string, seq<Net>>,
                                              peer: AccessPeer, addrs: seq<string>)
    requires peer.status.Some? && forall n :: IsAddressText(show(n))
    requires |peer.status.value.dns| > 0 ==> IsAddressText(peer.status.value.dns[0])
    ensures Writable(AddrsItems(env, show, byName, peer, addrs))
  {
    if addrs != [] {
      var src, dns := env.ip(addrs[|addrs| - 1]), peer.status.value.dns;
      AddrsItemsWritable(env, show, byName, peer, addrs[..|addrs| - 1]);
      NameItemsWritable(show, src, byName, peer.spec.accessRules);
      if |dns| > 0 {
        CommentShape(SourceText(show, src), dns[0]);
      }
    }
  }

  lemma {:induction false} ConfigItemsWritable(env: Parsers, show: Show, config: Config)
    requires TextsPrint(show, config)
    ensures Writable(ConfigItems(env, show, config))
    decreases |config.peers|
  {
    var byName, peers := DestinationsByName(env, config.rules), config.peers;
    if peers != [] {
      var last := peers[|peers| - 1];
      ConfigItemsWritable(env, show, config.(peers := peers[..|peers| - 1]));
      if last.status.Some? {
        AddrsItemsWritable(env, show, byName, last, Addresses(last.status.value));
      }
    }
  }

  ghost predicate PrefixFree(items: seq<Item>) {
    forall i, j | 0 <= i < |items| && 0 <= j < |items| :: items[j].comment <= items[i].comment ==> i == j
  }

  /** Every rule of the chain that the configuration recognises accepts permitted packets only. */
  ghost predicate NoIntruder(env: Parsers, show: Show, config: Config, chain: Chain) {
    var items := ConfigItems(env, show, config);
    forall r, p :: r in chain.rules && KnownBefore(items, |items|, r.userData) && Hits(r.meaning, p)
                   ==> ConfigPermits(env, config, p)
  }

  lemma NoIntruderIsNoImpostor(env: Parsers, show: Show, config: Config, chain: Chain)
    ensures NoIntruder(env, show, config, chain) <==> NoImpostor(chain, ConfigItems(env, show, config))
  {
    forall p {
      ItemsWantIffPermitted(env, show, config, p);
    }
  }

  ghost predicate OnlyPermitted(env: Parsers, config: Config, chain: Chain) {
    forall p :: Accepts(chain, p) ==> ConfigPermits(env, config, p)
  }

  lemma OnlyPermittedIsNothingUnwanted(env: Parsers, show: Show, config: Config, chain: Chain)
    ensures OnlyPermitted(env, config, chain) <==> NothingUnwanted(chain, ConfigItems(env, show, config))
  {
    forall p {
      ItemsWantIffPermitted(env, show, config, p);
    }
  }

  /** Safety, for any chain, any comments and any command outcomes: after as many syncs as the largest
      stale multiplicity, the default-drop chain accepts permitted packets only, if and only if no
      rule that the configuration recognised at first was an intruder. */
  lemma FirewallIsSafeIff(env: Parsers, show: Show, config: Config, chain: Chain, outs: seq<seq<nat>>)
    requires WellHandled(chain) && AllOutcomes(ConfigItems(env, show, config), outs)
    requires StaleAtMost(chain, ConfigItems(env, show, config), |outs|)
    ensures OnlyPermitted(env, config, SyncRun(chain, ConfigItems(env, show, config), outs)) <==>
            NoIntruder(env, show, config, chain)
  {
    var items := ConfigItems(env, show, config);
    SafeAfterRunIff(chain, items, outs);
    NoIntruderIsNoImpostor(env, show, config, chain);
    OnlyPermittedIsNothingUnwanted(env, show, config, SyncRun(chain, items, outs));
  }

  /** Meaning, for any command outcomes: if moreover every item is complete, the chain accepts a packet
      exactly when the configuration permits it, and further syncs change nothing. For this half the
      comments must be prefix-free, and the rules the configuration recognises must be its own. */
  lemma FirewallMeaning(env: Parsers, show: Show, config: Config, chain: Chain,
                        outs: seq<seq<nat>>, more: seq<seq<nat>>, p: Packet)
    requires TextsPrint(show, config) && WellHandled(chain)
    requires var items := ConfigItems(env, show, config);
             && PrefixFree(items) && Known(chain, items)
             && AllOutcomes(items, outs) && AllOutcomes(items, more) && StaleAtMost(chain, items, |outs|)
    ensures var items := ConfigItems(env, show, config);
            var c := SyncRun(chain, items, outs);
            && (Accepts(c, p) ==> ConfigPermits(env, config, p))
            && ((forall i :: 0 <= i < |items| ==> Complete(chain, items, outs, i)) ==>
                  (Accepts(c, p) <==> ConfigPermits(env, config, p)) && SyncRun(c, items, more) == c)
  {
    var items := ConfigItems(env, show, config);
    ConfigItemsWritable(env, show, config);
    PrefixFreeIsUnambiguous(items);
    SyncsConverge(chain, items, outs, more, p);
    ItemsWantIffPermitted(env, show, config, p);
  }

  /** Without failures, the only thing in the way is a pair that was half-written before. */
  lemma MeaningWithoutFailures(env: Parsers, show: Show, config: Config, chain: Chain, n: nat, p: Packet)
    requires TextsPrint(show, config) && WellHandled(chain)
    requires var items := ConfigItems(env, show, config);
             && PrefixFree(items) && Known(chain, items) && n > 0 && StaleAtMost(chain, items, n)
             && forall i :: 0 <= i < |items| ==> AllOrNothing(chain, items[i])
    ensures Accepts(SyncTimes(chain, ConfigItems(env, show, config), n), p) <==> ConfigPermits(env, config, p)
    ensures SyncTimes(chain, ConfigItems(env, show, config), n + 1) ==
            SyncTimes(chain, ConfigItems(env, show, config), n)
  {
    var items := ConfigItems(env, show, config);
    forall i | 0 <= i < |items| ensures Complete(chain, items, Successes(items, n), i) {
      SuccessesCompleteIff(chain, items, n, i);
    }
    FirewallMeaning(env, show, config, chain, Successes(items, n), [AllDone(items)], p);
    SyncTimesStep(chain, items, n);
    var c := SyncTimes(chain, items, n);
    assert SyncRun(c, items, [AllDone(items)][..0]) == c;
  }

  /** From the chain the operator itself creates, with no assumption on comments at all: whatever
      commands fail, only permitted packets are accepted, and exactly those if the first sync did
      not fail. */
  lemma FreshFirewallMeaning(env: Parsers, show: Show, config: Config, outs: seq<seq<nat>>, next: nat, p: Packet)
    requires AllOutcomes(ConfigItems(env, show, config), outs)
    ensures var items := ConfigItems(env, show, config);
            var c := SyncRun(Chain([], next), items, outs);
            && (Accepts(c, p) ==> ConfigPermits(env, config, p))
            && (outs != [] && outs[0] == AllDone(items) ==> (Accepts(c, p) <==> ConfigPermits(env, config, p)))
  {
    FreshMeaning(ConfigItems(env, show, config), outs, next, p);
    ItemsWantIffPermitted(env, show, config, p);
  }

  // ---------------------------------------------------------------- histories

  /** The chain holds exactly the rules of `items`. */
  ghost predicate Exact(chain: Chain, items: seq<Item>) {
    && WellHandled(chain) && Known(chain, items) && StaleAtMost(chain, items, 0)
    && (forall i :: 0 <= i < |items| ==> Whole(chain, items[i]))
    && (forall i :: 0 <= i < |items| ==> Count(chain.rules, UserData(items[i].comment)) == |items[i].adds|)
  }

  /** The same rules under the same comment. */
  ghost predicate Alike(x: Item, y: Item) {
    x.comment == y.comment && |x.adds| == |y.adds| && forall m :: m in x.adds <==> m in y.adds
  }

  /** The comments of two configurations do not clash: where a new item's comment is a prefix of the
      comment of an old item with rules, the two are alike. */
  ghost predicate Fits(was: seq<Item>, items: seq<Item>) {
    forall x, y :: x in was && y in items && x.adds != [] && y.comment <= x.comment ==> Alike(x, y)
  }

  /** No new item recognises the old one. */
  predicate Dropped(x: Item, items: seq<Item>) {
    forall y :: y in items ==> !(y.comment <= x.comment)
  }

  /** No old item has rules under the comment. */
  predicate IsNew(was: seq<Item>, y: Item) {
    forall x :: x in was && x.adds != [] ==> x.comment != y.comment
  }

  /** The syncs suffice to change over from one configuration to the next: there are as many as the
      largest dropped item has rules, and the first write of every new item is complete. */
  ghost predicate Suffices(was: seq<Item>, items: seq<Item>, outs: seq<seq<nat>>)
    requires AllOutcomes(items, outs)
  {
    && (forall x :: x in was && Dropped(x, items) ==> |x.adds| <= |outs|)
    && (forall i :: 0 <= i < |items| && IsNew(was, items[i]) ==> FirstWrite(items, outs, i) == |items[i].adds|)
  }

  /** Without failures `n` syncs suffice exactly when no dropped item has more than `n` rules. */
  lemma OneSyncSufficesIff(was: seq<Item>, items: seq<Item>, n: nat)
    requires n > 0
    ensures Suffices(was, items, Successes(items, n)) <==> forall x :: x in was && Dropped(x, items) ==> |x.adds| <= n
  {
    forall i | 0 <= i < |items| {
      SuccessesWriteAll(items, n, i);
    }
  }

  /** Changing the configuration, with no assumption on how the comments of the two are related: from
      the exact chain of the one, syncs with any outcomes lead to the exact chain of the other if and
      only if the comments fit and the syncs suffice. */
  lemma ChangeOverIff(chain: Chain, was: seq<Item>, items: seq<Item>, outs: seq<seq<nat>>)
    requires Exact(chain, was) && Writable(was) && Writable(items) && PrefixFree(items)
    requires AllOutcomes(items, outs)
    ensures Exact(SyncRun(chain, items, outs), items) <==> Fits(was, items) && Suffices(was, items, outs)
  {
    var c := SyncRun(chain, items, outs);
    if Exact(c, items) {
      KnownBeforehand(chain, items, outs);
    }
    if Known(chain, items) {
      ChangeOverKnown(chain, was, items, outs);
    } else {
      FitsMeansKnown(chain, was, items);
    }
  }

  lemma ChangeOverKnown(chain: Chain, was: seq<Item>, items: seq<Item>, outs: seq<seq<nat>>)
    requires Exact(chain, was) && Writable(was) && Writable(items) && PrefixFree(items)
    requires AllOutcomes(items, outs) && Known(chain, items)
    ensures Exact(SyncRun(chain, items, outs), items) <==> Fits(was, items) && Suffices(was, items, outs)
  {
    var c := SyncRun(chain, items, outs);
    PrefixFreeIsUnambiguous(items);
    RunCounts(chain, items, outs);
    StaleAfterChangeIff(chain, was, items, c, |outs|);
    AllWrittenIff(chain, was, items, outs);
    assert Exact(c, items) <==> StaleAtMost(c, items, 0) && AllWritten(c, items);
  }

  ghost predicate WellWritten(chain: Chain, it: Item) {
    Whole(chain, it) && Count(chain.rules, UserData(it.comment)) == |it.adds|
  }

  ghost predicate AllWritten(chain: Chain, items: seq<Item>) {
    forall i :: 0 <= i < |items| ==> WellWritten(chain, items[i])
  }

  /** A rule that is recognised is never deleted, so an impostor at first is one in the end. */
  lemma KnownBeforehand(chain: Chain, items: seq<Item>, outs: seq<seq<nat>>)
    requires WellHandled(chain) && AllOutcomes(items, outs) && Known(SyncRun(chain, items, outs), items)
    ensures Known(chain, items)
  {
    RunDrains(chain, items, outs);
    forall r, j | r in chain.rules && 0 <= j < |items| && Contains(r.userData, items[j].comment)
      ensures FromItem(r, items[j])
    {
      assert KnownBefore(items, |items|, r.userData);
    }
  }

  /** The item a rule of an exact chain belongs to. */
  lemma OwnerOf(chain: Chain, was: seq<Item>, r: Rule) returns (i: nat)
    requires Exact(chain, was) && r in chain.rules
    ensures i < |was| && FromItem(r, was[i])
  {
    assert Count(chain.rules, r.userData) > 0;
    i :| 0 <= i < |was| && Contains(r.userData, was[i].comment);
  }

  lemma FitsMeansKnown(chain: Chain, was: seq<Item>, items: seq<Item>)
    requires Exact(chain, was) && Writable(was) && Writable(items)
    ensures Fits(was, items) ==> Known(chain, items)
  {
    if Fits(was, items) {
      forall r, j | r in chain.rules && 0 <= j < |items| && Contains(r.userData, items[j].comment)
        ensures FromItem(r, items[j])
      {
        var i := OwnerOf(chain, was, r);
        ContainsIffPrefix(was[i].comment, items[j].comment);
        assert Alike(was[i], items[j]);
      }
    }
  }

  /** The rules of an old item in the chain. */
  lemma CarriedItem(chain: Chain, was: seq<Item>, x: Item)
    requires Exact(chain, was) && x in was
    ensures Count(chain.rules, UserData(x.comment)) == |x.adds|
    ensures forall m :: HasRule(chain, x, m) <==> m in x.adds
  {
    var i :| 0 <= i < |was| && was[i] == x;
    OwnComment(x.comment);
    assert forall r :: r in chain.rules && r.userData == UserData(x.comment) ==> FromItem(r, was[i]);
  }

  lemma SameUserData(a: string, b: string)
    requires UserData(a) == UserData(b)
    ensures a == b
  {
    assert UserData(a)[2..2 + |a|] == a && UserData(b)[2..2 + |b|] == b;
  }

  /** The user data of an old item is stale exactly if the item is dropped. */
  lemma DroppedIff(items: seq<Item>, x: Item)
    requires IsComment(x.comment) && Writable(items)
    ensures Dropped(x, items) <==> !KnownBefore(items, |items|, UserData(x.comment))
  {
    forall j | 0 <= j < |items|
      ensures Contains(UserData(x.comment), items[j].comment) <==> items[j].comment <= x.comment
    {
      ContainsIffPrefix(x.comment, items[j].comment);
    }
    assert forall y :: y in items ==> exists j :: 0 <= j < |items| && items[j] == y;
  }

  lemma StaleAfterChangeIff(chain: Chain, was: seq<Item>, items: seq<Item>, after: Chain, n: nat)
    requires Exact(chain, was) && Writable(was) && Writable(items) && Drained(chain, after, items, n)
    ensures StaleAtMost(after, items, 0) <==> forall x :: x in was && Dropped(x, items) ==> |x.adds| <= n
  {
    if StaleAtMost(after, items, 0) {
      forall x | x in was && Dropped(x, items) ensures |x.adds| <= n {
        CarriedItem(chain, was, x);
        DroppedIff(items, x);
        assert Count(after.rules, UserData(x.comment)) == Minus(|x.adds|, n);
      }
    }
    if forall x :: x in was && Dropped(x, items) ==> |x.adds| <= n {
      forall u | !KnownBefore(items, |items|, u) ensures Count(after.rules, u) <= 0 {
        if Count(chain.rules, u) > 0 {
          var r :| r in chain.rules && r.userData == u;
          var i := OwnerOf(chain, was, r);
          CarriedItem(chain, was, was[i]);
          DroppedIff(items, was[i]);
        }
      }
    }
  }

  lemma NewIff(chain: Chain, was: seq<Item>, y: Item)
    requires Exact(chain, was)
    ensures IsNew(was, y) <==> Count(chain.rules, UserData(y.comment)) == 0
  {
    if Count(chain.rules, UserData(y.comment)) > 0 {
      var r :| r in chain.rules && r.userData == UserData(y.comment);
      var i := OwnerOf(chain, was, r);
      SameUserData(was[i].comment, y.comment);
      assert was[i] in was;
    }
    forall x | x in was && x.adds != [] && x.comment == y.comment ensures Count(chain.rules, UserData(y.comment)) > 0 {
      CarriedItem(chain, was, x);
    }
  }

  /** An old item under the same comment has what the new one needs exactly if they are alike. */
  lemma CarriedIff(chain: Chain, was: seq<Item>, x: Item, y: Item)
    requires Exact(chain, was) && x in was && x.comment == y.comment
    ensures WellWritten(chain, y) && (forall m :: m in x.adds ==> m in y.adds) <==> Alike(x, y)
  {
    CarriedItem(chain, was, x);
    assert forall m :: HasRule(chain, x, m) <==> HasRule(chain, y, m);
  }

  lemma WrittenAfterChangeIff(chain: Chain, items: seq<Item>, outs: seq<seq<nat>>, i: nat)
    requires WellHandled(chain) && AllOutcomes(items, outs) && Unambiguous(items) && Known(chain, items) && i < |items|
    ensures WellWritten(SyncRun(chain, items, outs), items[i]) <==>
            if Count(chain.rules, UserData(items[i].comment)) > 0 then WellWritten(chain, items[i])
            else FirstWrite(items, outs, i) == |items[i].adds|
  {
    RunCounts(chain, items, outs);
    WholeAfterRunIff(chain, items, outs, i);
    assert items[i].adds[..|items[i].adds|] == items[i].adds;
  }

  /** The items that have rules already have all of them. */
  ghost predicate OldOnesWritten(chain: Chain, was: seq<Item>, items: seq<Item>) {
    forall i :: 0 <= i < |items| && !IsNew(was, items[i]) ==> WellWritten(chain, items[i])
  }

  lemma FitsIff(chain: Chain, was: seq<Item>, items: seq<Item>)
    requires Exact(chain, was) && Writable(was) && Writable(items) && Known(chain, items)
    ensures Fits(was, items) <==> OldOnesWritten(chain, was, items)
  {
    forall x, y | x in was && y in items && x.adds != [] && y.comment <= x.comment
      ensures x.comment == y.comment && forall m :: m in x.adds ==> m in y.adds
    {
      RecognisedHasSameComment(chain, was, items, x, y);
    }
    if OldOnesWritten(chain, was, items) {
      forall x, y | x in was && y in items && x.adds != [] && y.comment <= x.comment ensures Alike(x, y) {
        var i :| 0 <= i < |items| && items[i] == y;
        assert !IsNew(was, y);
        CarriedIff(chain, was, x, y);
      }
    }
    if Fits(was, items) {
      forall i | 0 <= i < |items| && !IsNew(was, items[i]) ensures WellWritten(chain, items[i]) {
        var x :| x in was && x.adds != [] && x.comment == items[i].comment;
        CarriedIff(chain, was, x, items[i]);
        assert Alike(x, items[i]);
      }
    }
  }

  lemma RecognisedHasSameComment(chain: Chain, was: seq<Item>, items: seq<Item>, x: Item, y: Item)
    requires Exact(chain, was) && Writable(was) && Writable(items) && Known(chain, items)
    requires x in was && y in items && x.adds != [] && y.comment <= x.comment
    ensures x.comment == y.comment && forall m :: m in x.adds ==> m in y.adds
  {
    CarriedItem(chain, was, x);
    ContainsIffPrefix(x.comment, y.comment);
    var j :| 0 <= j < |items| && items[j] == y;
    forall m | m in x.adds ensures x.comment == y.comment && m in y.adds {
      var r :| r in chain.rules && r.userData == UserData(x.comment) && r.meaning == m;
      assert FromItem(r, items[j]);
      SameUserData(x.comment, y.comment);
    }
    assert x.adds[0] in x.adds;
  }

  lemma AllWrittenIff(chain: Chain, was: seq<Item>, items: seq<Item>, outs: seq<seq<nat>>)
    requires Exact(chain, was) && Writable(was) && Writable(items) && PrefixFree(items)
    requires AllOutcomes(items, outs) && Known(chain, items)
    ensures AllWritten(SyncRun(chain, items, outs), items) <==>
            Fits(was, items)
            && forall i :: 0 <= i < |items| && IsNew(was, items[i]) ==> FirstWrite(items, outs, i) == |items[i].adds|
  {
    PrefixFreeIsUnambiguous(items);
    FitsIff(chain, was, items);
    forall i | 0 <= i < |items|
      ensures WellWritten(SyncRun(chain, items, outs), items[i]) <==>
              if IsNew(was, items[i]) then FirstWrite(items, outs, i) == |items[i].adds|
              else WellWritten(chain, items[i])
    {
      ItemWrittenIff(chain, was, items, outs, i);
    }
  }

  lemma ItemWrittenIff(chain: Chain, was: seq<Item>, items: seq<Item>, outs: seq<seq<nat>>, i: nat)
    requires Exact(chain, was) && Unambiguous(items) && AllOutcomes(items, outs) && Known(chain, items) && i < |items|
    ensures WellWritten(SyncRun(chain, items, outs), items[i]) <==>
            if IsNew(was, items[i]) then FirstWrite(items, outs, i) == |items[i].adds| else WellWritten(chain, items[i])
  {
    WrittenAfterChangeIff(chain, items, outs, i);
    NewIff(chain, was, items[i]);
  }

  // ---------------------------------------------------------------- a revoked destination

  /** What a clash costs: if a new item's comment is a prefix of an old item's, the old item's rules
      are taken for the new one's, and what they accept stays accepted after any number of syncs with
      any outcomes. */
  lemma RevokedStaysOpen(chain: Chain, was: seq<Item>, items: seq<Item>, x: Item, y: Item, m: Match,
                         outs: seq<seq<nat>>, p: Packet)
    requires Exact(chain, was) && Writable(was) && Writable(items) && AllOutcomes(items, outs)
    requires x in was && y in items && y.comment <= x.comment && m in x.adds && Hits(m, p)
    ensures Accepts(SyncRun(chain, items, outs), p)
  {
    CarriedItem(chain, was, x);
    var r :| r in chain.rules && r.userData == UserData(x.comment) && r.meaning == m;
    ContainsIffPrefix(x.comment, y.comment);
    var j :| 0 <= j < |items| && items[j] == y;
    assert KnownBefore(items, |items|, r.userData);
    RunDrains(chain, items, outs);
  }

  /** A packet of an old item whose rules are taken for a new item's. */
  ghost predicate Confused(was: seq<Item>, items: seq<Item>, p: Packet) {
    exists x, y, m :: x in was && y in items && y.comment <= x.comment && m in x.adds && Hits(m, p)
  }

  /** When a revocation works, with no assumption on comments: after as many syncs as the largest
      dropped item has rules, with any outcomes, nothing unwanted is accepted if and only if every
      packet of a confused item is wanted anyway. */
  lemma RevocationWorksIff(chain: Chain, was: seq<Item>, items: seq<Item>, outs: seq<seq<nat>>)
    requires Exact(chain, was) && Writable(was) && Writable(items) && AllOutcomes(items, outs)
    requires forall x :: x in was && Dropped(x, items) ==> |x.adds| <= |outs|
    ensures NothingUnwanted(SyncRun(chain, items, outs), items) <==>
            forall p :: Confused(was, items, p) ==> ItemsWant(items, p)
  {
    StaleBeforeChange(chain, was, items, |outs|);
    SafeAfterRunIff(chain, items, outs);
    forall p ensures Confused(was, items, p) <==> AcceptsRecognised(chain, items, p) {
      ConfusedIff(chain, was, items, p);
    }
    assert NoImpostor(chain, items) <==> forall p :: AcceptsRecognised(chain, items, p) ==> ItemsWant(items, p);
  }

  ghost predicate AcceptsRecognised(chain: Chain, items: seq<Item>, p: Packet) {
    exists r :: r in chain.rules && KnownBefore(items, |items|, r.userData) && Hits(r.meaning, p)
  }

  lemma ConfusedIff(chain: Chain, was: seq<Item>, items: seq<Item>, p: Packet)
    requires Exact(chain, was) && Writable(was) && Writable(items)
    ensures Confused(was, items, p) <==> AcceptsRecognised(chain, items, p)
  {
    if x, y, m :| x in was && y in items && y.comment <= x.comment && m in x.adds && Hits(m, p) {
      CarriedItem(chain, was, x);
      DroppedIff(items, x);
      assert HasRule(chain, x, m);
    }
    if r :| r in chain.rules && KnownBefore(items, |items|, r.userData) && Hits(r.meaning, p) {
      var i := OwnerOf(chain, was, r);
      DroppedIff(items, was[i]);
      var y :| y in items && y.comment <= was[i].comment;
      assert was[i] in was;
    }
  }

  lemma StaleBeforeChange(chain: Chain, was: seq<Item>, items: seq<Item>, n: nat)
    requires Exact(chain, was) && Writable(was) && Writable(items)
    requires forall x :: x in was && Dropped(x, items) ==> |x.adds| <= n
    ensures StaleAtMost(chain, items, n)
  {
    forall u | !KnownBefore(items, |items|, u) ensures Count(chain.rules, u) <= n {
      if Count(chain.rules, u) > 0 {
        var r :| r in chain.rules && r.userData == u;
        var i := OwnerOf(chain, was, r);
        CarriedItem(chain, was, was[i]);
        DroppedIff(items, was[i]);
      }
    }
  }

  const FORMER := Net(Addr(V4, 0x010A_0000), 16)
  const LATTER := Net(Addr(V4, 0x0B00_0000), 16)

  /** A peer with one address and a rule with one destination. */
  function OneRule(addr: string, destination: string): Config {
    Config([AccessRule("rule", [destination])],
           [AccessPeer("peer", PeerSpec("", "", ["rule"]), Some(PeerStatus("", [addr], [])))])
  }

  lemma OneRuleItems(env: Parsers, show: Show, addr: string, destination: string, a: Addr, n: Net)
    requires env.ip(addr) == Some(a) && env.cidr(destination) == Some(n)
    ensures ConfigItems(env, show, OneRule(addr, destination)) == [RouteItem(show, Some(a), n)]
  {
    var config := OneRule(addr, destination);
    var byName, peer := DestinationsByName(env, config.rules), config.peers[0];
    assert ParsedNets(env, [destination][..0]) == [];
    assert byName["rule"] == [] + [n] == [n];
    assert NetItems(show, Some(a), [n][..0]) == [];
    assert NameItems(show, Some(a), byName, ["rule"][..0]) == [];
    assert AddrsItems(env, show, byName, peer, [addr][..0]) == [];
    assert PeersItems(env, show, byName, config.peers[..0]) == [];
    assert AddrItems(env, show, byName, peer, addr) == [RouteItem(show, Some(a), n)];
    assert Addresses(peer.status.value) == [addr];
    assert PeerItems(env, show, byName, peer) == [RouteItem(show, Some(a), n)];
  }

  /** One input for which it fails: the destination of an IPv4 peer's only rule is edited from
      1.10.0.0/16 to 11.0.0.0/16. The comments are equal, so after any number of syncs with any
      outcomes packets to the former network are still accepted, although they are not permitted. */
  lemma EditedDestinationStaysOpen(env: Parsers, show: Show, addr: string, a: Addr, next: nat, outs: seq<seq<nat>>)
    requires env.ip(addr) == Some(a) && a.family.V4? && IsAddressText(show(HostNet(a)))
    requires env.cidr("1.10.0.0/16") == Some(FORMER) && show(FORMER) == "1.10.0.0/16"
    requires env.cidr("11.0.0.0/16") == Some(LATTER) && show(LATTER) == "11.0.0.0/16"
    requires AllOutcomes(ConfigItems(env, show, OneRule(addr, "11.0.0.0/16")), outs)
    ensures var former, latter := OneRule(addr, "1.10.0.0/16"), OneRule(addr, "11.0.0.0/16");
            var chain := SyncTimes(Chain([], next), ConfigItems(env, show, former), 1);
            var p := Packet(a, FORMER.ip, Other, 0);
            && Accepts(SyncRun(chain, ConfigItems(env, show, latter), outs), p)
            && !ConfigPermits(env, latter, p)
  {
    OneRuleItems(env, show, addr, "1.10.0.0/16", a, FORMER);
    OneRuleItems(env, show, addr, "11.0.0.0/16", a, LATTER);
    EditedItemStaysOpen(show, a, next, outs);
    ItemsWantIffPermitted(env, show, OneRule(addr, "11.0.0.0/16"), Packet(a, FORMER.ip, Other, 0));
    RouteItemWant(show, Some(a), LATTER, Packet(a, FORMER.ip, Other, 0));
    FormerIsNotLatter();
  }

  lemma EditedItemStaysOpen(show: Show, a: Addr, next: nat, outs: seq<seq<nat>>)
    requires a.family.V4? && IsAddressText(show(HostNet(a)))
    requires show(FORMER) == "1.10.0.0/16" && show(LATTER) == "11.0.0.0/16"
    requires AllOutcomes([RouteItem(show, Some(a), LATTER)], outs)
    ensures var x, y := RouteItem(show, Some(a), FORMER), RouteItem(show, Some(a), LATTER);
            Accepts(SyncRun(SyncTimes(Chain([], next), [x], 1), [y], outs), Packet(a, FORMER.ip, Other, 0))
  {
    var x, y := RouteItem(show, Some(a), FORMER), RouteItem(show, Some(a), LATTER);
    CommentShape(show(HostNet(a)), show(FORMER));
    CommentShape(show(HostNet(a)), show(LATTER));
    CollidingNetworks(show(HostNet(a)));
    OneItemIsExact(x, next);
    HostNetIsOneAddress(a, a);
    RevokedStaysOpen(SyncTimes(Chain([], next), [x], 1), [x], [y], x, y, Route(HostNet(a), FORMER), outs,
                     Packet(a, FORMER.ip, Other, 0));
  }

  lemma OneItemIsExact(x: Item, next: nat)
    requires Writable([x])
    ensures Exact(SyncTimes(Chain([], next), [x], 1), [x])
  {
    OneSyncSufficesIff([], [x], 1);
    ChangeOverIff(Chain([], next), [], [x], Successes([x], 1));
  }

  lemma FormerIsNotLatter()
    ensures !InNet(FORMER.ip, LATTER)
  {
    AddressIndex.Pow2At63();
  }

  // ---------------------------------------------------------------- whole histories

  /** A stage of a history: a configuration's items, and the outcomes of its syncs. */
  datatype Stage = Stage(items: seq<Item>, outs: seq<seq<nat>>)

  /** A history starts from the chain the operator creates. */
  ghost function ChainAfter(stages: seq<Stage>, next: nat): Chain
    requires forall k :: 0 <= k < |stages| ==> AllOutcomes(stages[k].items, stages[k].outs)
  {
    if stages == [] then Chain([], next)
    else
      var k := |stages| - 1;
      SyncRun(ChainAfter(stages[..k], next), stages[k].items, stages[k].outs)
  }

  /** Configurations may change in any way. Within each of them, comments are prefix-free. */
  ghost predicate GoodHistory(stages: seq<Stage>) {
    forall k :: 0 <= k < |stages| ==>
      AllOutcomes(stages[k].items, stages[k].outs) && Writable(stages[k].items) && PrefixFree(stages[k].items)
  }

  /** The items in force after the history. */
  function Latest(stages: seq<Stage>): seq<Item> {
    if stages == [] then [] else stages[|stages| - 1].items
  }

  /** Every stage fits the one before it, and was synced sufficiently for the change. */
  ghost predicate AllFit(stages: seq<Stage>)
    requires GoodHistory(stages)
  {
    if stages == [] then true
    else
      var k := |stages| - 1;
      && AllFit(stages[..k])
      && Fits(Latest(stages[..k]), stages[k].items) && Suffices(Latest(stages[..k]), stages[k].items, stages[k].outs)
  }

  /** The chain was exact after every stage. */
  ghost predicate AlwaysExact(stages: seq<Stage>, next: nat)
    requires GoodHistory(stages)
  {
    if stages == [] then true
    else
      var k := |stages| - 1;
      AlwaysExact(stages[..k], next) && Exact(ChainAfter(stages, next), stages[k].items)
  }

  lemma AlwaysIsNow(stages: seq<Stage>, next: nat)
    requires GoodHistory(stages) && AlwaysExact(stages, next)
    ensures Exact(ChainAfter(stages, next), Latest(stages))
  {
  }

  lemma LastStageIff(stages: seq<Stage>, next: nat)
    requires GoodHistory(stages) && stages != []
    requires var k := |stages| - 1; AlwaysExact(stages[..k], next)
    ensures var k := |stages| - 1;
            Exact(ChainAfter(stages, next), stages[k].items) <==>
            Fits(Latest(stages[..k]), stages[k].items) && Suffices(Latest(stages[..k]), stages[k].items, stages[k].outs)
  {
    var k := |stages| - 1;
    AlwaysIsNow(stages[..k], next);
    assert Writable(Latest(stages[..k]));
    ChangeOverIff(ChainAfter(stages[..k], next), Latest(stages[..k]), stages[k].items, stages[k].outs);
  }

  /** Over every history, with any changes of configuration and any command outcomes: the chain is
      exact after every stage if and only if every stage fits the one before it and suffices for the
      change. */
  lemma {:induction false} HistoryIsExactIff(stages: seq<Stage>, next: nat)
    requires GoodHistory(stages)
    ensures AlwaysExact(stages, next) <==> AllFit(stages)
  {
    if stages != [] {
      var k := |stages| - 1;
      HistoryIsExactIff(stages[..k], next);
      if AlwaysExact(stages[..k], next) {
        LastStageIff(stages, next);
      }
    }
  }

  /** The same in terms of configurations: if every change fitted and was synced sufficiently, the
      chain accepts exactly what the latest configuration permits. */
  lemma HistoryMeaning(env: Parsers, show: Show, configs: seq<Config>, outs: seq<seq<seq<nat>>>, next: nat, p: Packet)
    requires |configs| == |outs| > 0
    requires GoodHistory(Stages(env, show, configs, outs))
    ensures var stages := Stages(env, show, configs, outs);
            AllFit(stages) ==> (Accepts(ChainAfter(stages, next), p) <==> ConfigPermits(env, configs[|configs| - 1], p))
  {
    var stages := Stages(env, show, configs, outs);
    HistoryMeansLatest(stages, next, p);
    ItemsWantIffPermitted(env, show, configs[|configs| - 1], p);
  }

  lemma ExactMeaning(chain: Chain, items: seq<Item>, p: Packet)
    requires Exact(chain, items)
    ensures Accepts(chain, p) <==> ItemsWant(items, p)
  {
    WholeAccepts(chain, items, p);
    if Accepts(chain, p) {
      var r :| r in chain.rules && Hits(r.meaning, p);
      var i := OwnerOf(chain, items, r);
    }
  }

  lemma HistoryMeansLatest(stages: seq<Stage>, next: nat, p: Packet)
    requires GoodHistory(stages)
    ensures AllFit(stages) ==> (Accepts(ChainAfter(stages, next), p) <==> ItemsWant(Latest(stages), p))
  {
    HistoryIsExactIff(stages, next);
    if AllFit(stages) {
      AlwaysIsNow(stages, next);
      ExactMeaning(ChainAfter(stages, next), Latest(stages), p);
    }
  }

  function Stages(env: Parsers, show: Show, configs: seq<Config>, outs: seq<seq<seq<nat>>>): (r: seq<Stage>)
    requires |configs| == |outs|
    ensures |r| == |configs|
    ensures forall k :: 0 <= k < |r| ==> r[k] == Stage(ConfigItems(env, show, configs[k]), outs[k])
  {
    seq(|configs|, k requires 0 <= k < |configs| => Stage(ConfigItems(env, show, configs[k]), outs[k]))
  }

  /** What the missing sync costs: from the exact chain of any configuration with a DNS/HTTP pair, one
      sync of any configuration that drops the pair, with any outcomes, leaves half of it. Any number of
      syncs of any configuration that has the pair again, with any outcomes, will not complete it. */
  lemma SingleSyncsLoseHalfAPair(chain: Chain, was: seq<Item>, without: seq<Item>, again: seq<Item>, it: Item,
                                 done: seq<nat>, outs: seq<seq<nat>>)
    requires Exact(chain, was) && Writable(was) && Writable(without) && Writable(again) && PrefixFree(again)
    requires |it.adds| == 2 && it.adds[0] != it.adds[1] && it in was && it in again && Dropped(it, without)
    requires Outcomes(without, done) && AllOutcomes(again, outs)
    ensures !Whole(SyncRun(SyncChain(chain, without, done), again, outs), it)
  {
    var half, u := SyncChain(chain, without, done), UserData(it.comment);
    CarriedItem(chain, was, it);
    DroppedIff(without, it);
    SyncDrains(chain, without, done);
    assert Count(half.rules, u) == 1;
    var i :| 0 <= i < |again| && again[i] == it;
    PrefixFreeIsUnambiguous(again);
    PresentStays(half, again, outs, i);
    if Whole(SyncRun(half, again, outs), it) {
      TwoRulesCountTwice(SyncRun(half, again, outs), it);
    }
  }

  /** Items that have rules are not written again, whatever other rules the chain has. */
  lemma {:induction false} PresentStays(chain: Chain, items: seq<Item>, outs: seq<seq<nat>>, i: nat)
    requires WellHandled(chain) && AllOutcomes(items, outs) && Unambiguous(items) && i < |items|
    requires Count(chain.rules, UserData(items[i].comment)) > 0
    ensures Count(SyncRun(chain, items, outs).rules, UserData(items[i].comment)) ==
            Count(chain.rules, UserData(items[i].comment))
  {
    if outs != [] {
      var n, u := |outs| - 1, UserData(items[i].comment);
      var before := SyncRun(chain, items, outs[..n]);
      PresentStays(chain, items, outs[..n], i);
      RunDrains(chain, items, outs[..n]);
      OwnComment(items[i].comment);
      UnambiguousIsDistinct(items);
      FiredCount(before.rules, items, outs[n], before.nextHandle, i);
      SyncCounts(before, items, outs[n], u);
      assert !Fires(before.rules, items, i) by {
        var r :| r in before.rules && r.userData == u;
        assert !KnownBefore(items, i, u);
      }
    }
  }

  lemma TwoRulesCountTwice(chain: Chain, it: Item)
    requires Whole(chain, it) && |it.adds| == 2 && it.adds[0] != it.adds[1]
    ensures Count(chain.rules, UserData(it.comment)) >= 2
  {
    assert it.adds[0] in it.adds && it.adds[1] in it.adds;
    var a :| a in chain.rules && a.userData == UserData(it.comment) && a.meaning == it.adds[0];
    var b :| b in chain.rules && b.userData == UserData(it.comment) && b.meaning == it.adds[1];
    CountTwo(chain.rules, a, b);
  }

  lemma {:induction false} CountTwo(rules: seq<Rule>, a: Rule, b: Rule)
    requires a in rules && b in rules && a != b && a.userData == b.userData
    ensures Count(rules, a.userData) >= 2
  {
    var init, last := rules[..|rules| - 1], rules[|rules| - 1];
    assert rules == init + [last];
    if last != a && last != b {
      CountTwo(init, a, b);
    }
  }
}
