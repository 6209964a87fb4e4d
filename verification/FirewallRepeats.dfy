/** What repeated rule syncs achieve, with any outcomes of their commands: stale rules drain, items
    are completed or not, and a chain of the operator's own grows or stays. */
module FirewallRepeats {
  import opened Nets
  import opened Comments
  import opened Firewall
  import opened FirewallTheorems

  ghost predicate AllOutcomes(items: seq<Item>, outs: seq<seq<nat>>) {
    forall k :: 0 <= k < |outs| ==> Outcomes(items, outs[k])
  }

  /** Syncs of one configuration, one after the other, each with its command outcomes. */
  ghost function SyncRun(chain: Chain, items: seq<Item>, outs: seq<seq<nat>>): Chain
    requires AllOutcomes(items, outs)
  {
    if outs == [] then chain
    else SyncChain(SyncRun(chain, items, outs[..|outs| - 1]), items, outs[|outs| - 1])
  }

  /** With no assumption on comments, whatever commands fail: each sync lowers the multiplicity of
      each stale user data by exactly one, and nothing else is ever deleted. */
  lemma {:induction false} RunDrains(chain: Chain, items: seq<Item>, outs: seq<seq<nat>>)
    requires WellHandled(chain) && AllOutcomes(items, outs)
    ensures var c := SyncRun(chain, items, outs);
            && WellHandled(c) && Drained(chain, c, items, |outs|)
            && NothingStrange(chain, c, items) && RecognisedKept(chain, c, items)
  {
    if outs != [] {
      var n := |outs| - 1;
      RunDrains(chain, items, outs[..n]);
      SyncDrains(SyncRun(chain, items, outs[..n]), items, outs[n]);
    }
  }

  /** Safety, with no assumption on chain or comments: after as many syncs as the largest stale
      multiplicity, whatever commands fail, nothing unwanted is accepted if and only if no rule that
      the configuration recognised at first was an impostor. */
  lemma SafeAfterRunIff(chain: Chain, items: seq<Item>, outs: seq<seq<nat>>)
    requires WellHandled(chain) && AllOutcomes(items, outs) && StaleAtMost(chain, items, |outs|)
    ensures StaleAtMost(SyncRun(chain, items, outs), items, 0)
    ensures NothingUnwanted(SyncRun(chain, items, outs), items) <==> NoImpostor(chain, items)
  {
    RunDrains(chain, items, outs);
    NothingUnwantedIff(chain, SyncRun(chain, items, outs), items);
  }

  /** How many rules of item `i` the first sync adds that adds any. */
  ghost function FirstWrite(items: seq<Item>, outs: seq<seq<nat>>, i: nat): (r: nat)
    requires AllOutcomes(items, outs) && i < |items|
    ensures r <= |items[i].adds|
  {
    if outs == [] then 0
    else
      var before := FirstWrite(items, outs[..|outs| - 1], i);
      if before > 0 then before else outs[|outs| - 1][i]
  }

  /** Items that had rules keep them; the others have what was first written. */
  ghost predicate KeptOrWritten(before: Chain, after: Chain, items: seq<Item>, outs: seq<seq<nat>>)
    requires AllOutcomes(items, outs)
  {
    forall i :: 0 <= i < |items| ==>
      Count(after.rules, UserData(items[i].comment)) ==
      if Count(before.rules, UserData(items[i].comment)) > 0 then Count(before.rules, UserData(items[i].comment))
      else FirstWrite(items, outs, i)
  }

  /** Whatever commands fail, if the comments are unambiguous: items that had rules keep their number,
      and the others get what is first written. */
  lemma {:induction false} RunCounts(chain: Chain, items: seq<Item>, outs: seq<seq<nat>>)
    requires WellHandled(chain) && AllOutcomes(items, outs) && Unambiguous(items) && Known(chain, items)
    ensures var c := SyncRun(chain, items, outs);
            && WellHandled(c) && Known(c, items)
            && Drained(chain, c, items, |outs|) && KeptOrWritten(chain, c, items, outs)
  {
    if outs != [] {
      var n := |outs| - 1;
      var before := SyncRun(chain, items, outs[..n]);
      RunCounts(chain, items, outs[..n]);
      SyncStep(before, items, outs[n]);
    }
  }

  /** The item has all its rules in the end: it had them, or the first sync that wrote any wrote
      all. */
  ghost predicate Complete(chain: Chain, items: seq<Item>, outs: seq<seq<nat>>, i: nat)
    requires AllOutcomes(items, outs) && i < |items|
  {
    if Count(chain.rules, UserData(items[i].comment)) > 0 then Whole(chain, items[i])
    else Covers(items[i], FirstWrite(items, outs, i))
  }

  /** No number of syncs completes what was once half-written. */
  lemma {:induction false} WholeAfterRunIff(chain: Chain, items: seq<Item>, outs: seq<seq<nat>>, i: nat)
    requires WellHandled(chain) && AllOutcomes(items, outs) && Unambiguous(items) && Known(chain, items) && i < |items|
    ensures Whole(SyncRun(chain, items, outs), items[i]) <==> Complete(chain, items, outs, i)
  {
    if outs != [] {
      var n := |outs| - 1;
      var before := SyncRun(chain, items, outs[..n]);
      RunCounts(chain, items, outs[..n]);
      WholeAfterSyncIff(before, items, outs[n], i);
      WholeAfterRunIff(chain, items, outs[..n], i);
    }
  }

  // ---------------------------------------------------------------- convergence

  ghost predicate Present(chain: Chain, items: seq<Item>) {
    forall i :: 0 <= i < |items| && items[i].adds != [] ==> Count(chain.rules, UserData(items[i].comment)) > 0
  }

  lemma {:induction false} RunIsSilent(chain: Chain, items: seq<Item>, outs: seq<seq<nat>>)
    requires WellHandled(chain) && AllOutcomes(items, outs) && Unambiguous(items) && Known(chain, items)
    requires StaleAtMost(chain, items, 0) && Present(chain, items)
    ensures SyncRun(chain, items, outs) == chain
  {
    if outs != [] {
      RunIsSilent(chain, items, outs[..|outs| - 1]);
      SyncIsSilent(chain, items, outs[|outs| - 1]);
    }
  }

  lemma WholeIsPresent(chain: Chain, items: seq<Item>)
    requires forall i :: 0 <= i < |items| ==> Whole(chain, items[i])
    ensures Present(chain, items)
  {
    forall i | 0 <= i < |items| && items[i].adds != [] ensures Count(chain.rules, UserData(items[i].comment)) > 0 {
      assert HasRule(chain, items[i], items[i].adds[0]);
    }
  }

  /** Convergence: after as many syncs as the largest stale multiplicity, whatever commands fail, if
      every item is complete then exactly the configuration is accepted, and no further sync changes
      anything. */
  lemma SyncsConverge(chain: Chain, items: seq<Item>, outs: seq<seq<nat>>, more: seq<seq<nat>>, p: Packet)
    requires WellHandled(chain) && Unambiguous(items) && Known(chain, items)
    requires AllOutcomes(items, outs) && AllOutcomes(items, more) && StaleAtMost(chain, items, |outs|)
    ensures var c := SyncRun(chain, items, outs);
            && (Accepts(c, p) ==> ItemsWant(items, p))
            && ((forall i :: 0 <= i < |items| ==> Complete(chain, items, outs, i)) ==>
                  (Accepts(c, p) <==> ItemsWant(items, p)) && SyncRun(c, items, more) == c)
  {
    var c := SyncRun(chain, items, outs);
    RunCounts(chain, items, outs);
    SafeAfterRunIff(chain, items, outs);
    KnownIsNoImpostor(chain, items);
    assert NothingUnwanted(c, items);
    if forall i :: 0 <= i < |items| ==> Complete(chain, items, outs, i) {
      forall i | 0 <= i < |items| ensures Whole(c, items[i]) {
        WholeAfterRunIff(chain, items, outs, i);
      }
      WholeAccepts(c, items, p);
      WholeIsPresent(c, items);
      RunIsSilent(c, items, more);
    }
  }

  // ---------------------------------------------------------------- syncs without failures

  /** The outcomes of `n` syncs in which every command succeeds. */
  function Successes(items: seq<Item>, n: nat): (outs: seq<seq<nat>>)
    ensures AllOutcomes(items, outs) && |outs| == n
  {
    seq(n, _ => AllDone(items))
  }

  ghost function SyncTimes(chain: Chain, items: seq<Item>, n: nat): Chain {
    SyncRun(chain, items, Successes(items, n))
  }

  lemma SyncTimesStep(chain: Chain, items: seq<Item>, n: nat)
    ensures SyncTimes(chain, items, 0) == chain
    ensures SyncTimes(chain, items, n + 1) == SyncChain(SyncTimes(chain, items, n), items, AllDone(items))
  {
    assert Successes(items, n + 1)[..n] == Successes(items, n);
  }

  lemma {:induction false} SuccessesWriteAll(items: seq<Item>, n: nat, i: nat)
    requires n > 0 && i < |items|
    ensures FirstWrite(items, Successes(items, n), i) == |items[i].adds|
  {
    assert Successes(items, n)[..n - 1] == Successes(items, n - 1);
    if n > 1 {
      SuccessesWriteAll(items, n - 1, i);
    }
  }

  /** Without failures an item is complete exactly when it had all of its rules or none. */
  lemma SuccessesCompleteIff(chain: Chain, items: seq<Item>, n: nat, i: nat)
    requires n > 0 && i < |items|
    ensures Complete(chain, items, Successes(items, n), i) <==> AllOrNothing(chain, items[i])
  {
    SuccessesWriteAll(items, n, i);
    assert items[i].adds[..|items[i].adds|] == items[i].adds;
  }

  // ---------------------------------------------------------------- a chain of the operator's own

  /** Every rule was written for an item. */
  ghost predicate Own(chain: Chain, items: seq<Item>) {
    forall r :: r in chain.rules ==> IsOwn(r, items)
  }

  lemma OwnLeavesNothing(chain: Chain, items: seq<Item>)
    requires Own(chain, items)
    ensures HandlesOf(Unclaimed(chain.rules, items)) == {}
  {
    RuleMapFacts(chain.rules);
    forall u | u in RuleMapOf(chain.rules) ensures KnownBefore(items, |items|, u) {
      var i :| 0 <= i < |items| && FromItem(RuleMapOf(chain.rules)[u], items[i]);
      OwnComment(items[i].comment);
    }
  }

  /** With no assumption on comments: a sync only adds to such a chain. */
  lemma OwnOnlyGrows(chain: Chain, items: seq<Item>, done: seq<nat>)
    requires Own(chain, items) && Outcomes(items, done)
    ensures var c, added := SyncChain(chain, items, done), Added(chain.rules, items, done, chain.nextHandle);
            c == Chain(chain.rules + added, chain.nextHandle + |added|) && Own(c, items)
  {
    var added := Added(chain.rules, items, done, chain.nextHandle);
    RunItemsEffect(chain, items, done);
    OwnLeavesNothing(chain, items);
    DeleteNothing(chain.rules + added);
    forall r | r in added ensures IsOwn(r, items) {
      AddedIsOwn(chain.rules, items, done, chain.nextHandle, r);
    }
  }

  lemma {:induction false} OwnRunGrows(chain: Chain, items: seq<Item>, outs: seq<seq<nat>>)
    requires Own(chain, items) && AllOutcomes(items, outs)
    ensures Own(SyncRun(chain, items, outs), items) && chain.rules <= SyncRun(chain, items, outs).rules
  {
    if outs != [] {
      var n := |outs| - 1;
      OwnRunGrows(chain, items, outs[..n]);
      OwnOnlyGrows(SyncRun(chain, items, outs[..n]), items, outs[n]);
    }
  }

  lemma OwnNeverOpens(chain: Chain, items: seq<Item>, p: Packet)
    requires Own(chain, items)
    ensures Accepts(chain, p) ==> ItemsWant(items, p)
  {
    if Accepts(chain, p) {
      var r :| r in chain.rules && Hits(r.meaning, p);
      var i :| 0 <= i < |items| && FromItem(r, items[i]);
    }
  }

  lemma GrowingStaysWhole(before: Chain, after: Chain, items: seq<Item>)
    requires before.rules <= after.rules && forall i :: 0 <= i < |items| ==> Whole(before, items[i])
    ensures forall i :: 0 <= i < |items| ==> Whole(after, items[i])
  {
    forall i, m | 0 <= i < |items| && m in items[i].adds ensures HasRule(after, items[i], m) {
      var r :| r in before.rules && r.userData == UserData(items[i].comment) && r.meaning == m;
      assert r in after.rules;
    }
  }

  /** On the empty chain every item fires. */
  lemma FirstSyncIsWhole(items: seq<Item>, next: nat)
    ensures var first := SyncChain(Chain([], next), items, AllDone(items));
            Own(first, items) && forall i :: 0 <= i < |items| ==> Whole(first, items[i])
  {
    var first, done := SyncChain(Chain([], next), items, AllDone(items)), AllDone(items);
    OwnOnlyGrows(Chain([], next), items, done);
    forall i, m | 0 <= i < |items| && m in items[i].adds ensures HasRule(first, items[i], m) {
      assert items[i].adds[..done[i]] == items[i].adds;
      assert Adds([], items, done, UserData(items[i].comment), m, i);
      AddedContents([], items, done, next, UserData(items[i].comment), m);
      var r :| r in Added([], items, done, next) && r.userData == UserData(items[i].comment) && r.meaning == m;
      assert r in first.rules;
    }
  }

  lemma {:induction false} FreshRunIsWhole(items: seq<Item>, outs: seq<seq<nat>>, next: nat)
    requires AllOutcomes(items, outs) && outs != [] && outs[0] == AllDone(items)
    ensures forall i :: 0 <= i < |items| ==> Whole(SyncRun(Chain([], next), items, outs), items[i])
  {
    var n := |outs| - 1;
    if n == 0 {
      FirstSyncIsWhole(items, next);
    } else {
      FreshRunIsWhole(items, outs[..n], next);
      OwnRunGrows(Chain([], next), items, outs[..n]);
      OwnOnlyGrows(SyncRun(Chain([], next), items, outs[..n]), items, outs[n]);
      GrowingStaysWhole(SyncRun(Chain([], next), items, outs[..n]), SyncRun(Chain([], next), items, outs), items);
    }
  }

  /** From the chain the operator itself creates, with no assumption on comments, repeats allowed:
      nothing unwanted is ever accepted, whatever fails, and if nothing failed in the first sync,
      exactly the wanted packets are. */
  lemma FreshMeaning(items: seq<Item>, outs: seq<seq<nat>>, next: nat, p: Packet)
    requires AllOutcomes(items, outs)
    ensures var c := SyncRun(Chain([], next), items, outs);
            && (Accepts(c, p) ==> ItemsWant(items, p))
            && (outs != [] && outs[0] == AllDone(items) ==> (Accepts(c, p) <==> ItemsWant(items, p)))
  {
    var c := SyncRun(Chain([], next), items, outs);
    OwnRunGrows(Chain([], next), items, outs);
    OwnNeverOpens(c, items, p);
    if outs != [] && outs[0] == AllDone(items) {
      FreshRunIsWhole(items, outs, next);
      WholeAccepts(c, items, p);
    }
  }

  // ---------------------------------------------------------------- growth

  /** An earlier item has a comment that is a prefix of this item's: in particular, the same one. */
  predicate Repeats(items: seq<Item>, i: int) {
    0 <= i < |items| && exists j :: 0 <= j < i && items[j].comment <= items[i].comment
  }

  /** Once all items are in the chain, exactly the repeating ones fire. */
  lemma RepeatsFire(chain: Chain, items: seq<Item>, i: nat)
    requires forall j :: 0 <= j < |items| ==> IsComment(items[j].comment)
    requires Own(chain, items) && Present(chain, items) && i < |items| && items[i].adds != []
    ensures Fires(chain.rules, items, i) <==> Repeats(items, i)
  {
    var c := items[i].comment;
    if Fires(chain.rules, items, i) {
      OwnComment(c);
      var r :| r in chain.rules && r.userData == UserData(c);
      var j :| 0 <= j < i && Contains(UserData(c), items[j].comment);
      ContainsIffPrefix(c, items[j].comment);
    }
    if j :| 0 <= j < i && items[j].comment <= c {
      forall r | r in chain.rules && Contains(r.userData, c) ensures KnownBefore(items, i, r.userData) {
        var k :| 0 <= k < |items| && FromItem(r, items[k]);
        ContainsIffPrefix(items[k].comment, c);
        ContainsIffPrefix(items[k].comment, items[j].comment);
      }
    }
  }

  /** The number of rules of the items that satisfy the predicate. */
  ghost function RulesOf(items: seq<Item>, counts: nat -> bool): nat {
    if items == [] then 0
    else
      var n := |items| - 1;
      RulesOf(items[..n], counts) + if counts(n) then |items[n].adds| else 0
  }

  lemma {:induction false} AddedLength(rules: seq<Rule>, items: seq<Item>, counts: nat -> bool, k: nat, next: nat)
    requires k <= |items|
    requires forall i: nat :: i < |items| && items[i].adds != [] ==> (Fires(rules, items, i) <==> counts(i))
    ensures |Added(rules, items[..k], AllDone(items[..k]), next)| == RulesOf(items[..k], counts)
  {
    if k > 0 {
      AddedLength(rules, items, counts, k - 1, next);
      assert items[..k][..k - 1] == items[..k - 1];
      assert AllDone(items[..k])[..k - 1] == AllDone(items[..k - 1]);
      FiresPrefix(rules, items, k, k - 1);
    }
  }

  /** The rules each further sync adds. */
  ghost function Growth(items: seq<Item>): nat {
    RulesOf(items, i => Repeats(items, i))
  }

  ghost function Total(items: seq<Item>): nat {
    RulesOf(items, i => true)
  }

  /** From the operator's own chain: the first sync writes all rules, and each further one writes
      the rules of the repeating items once more, without bound. */
  lemma {:induction false} SyncsGrow(items: seq<Item>, next: nat, n: nat)
    requires n > 0 && forall j :: 0 <= j < |items| ==> IsComment(items[j].comment)
    ensures var c := SyncTimes(Chain([], next), items, n);
            && Own(c, items) && Present(c, items)
            && |c.rules| == Total(items) + (n - 1) * Growth(items)
  {
    var empty := Chain([], next);
    var before := SyncTimes(empty, items, n - 1);
    SyncTimesStep(empty, items, n - 1);
    assert items[..|items|] == items;
    if n == 1 {
      FirstSyncIsWhole(items, next);
      OwnOnlyGrows(empty, items, AllDone(items));
      WholeIsPresent(SyncTimes(empty, items, 1), items);
      AddedLength([], items, i => true, |items|, next);
    } else {
      SyncsGrow(items, next, n - 1);
      OwnOnlyGrows(before, items, AllDone(items));
      forall i: nat | i < |items| && items[i].adds != [] {
        RepeatsFire(before, items, i);
      }
      AddedLength(before.rules, items, i => Repeats(items, i), |items|, before.nextHandle);
      GrowthStep(Total(items), Growth(items), n);
    }
  }

  ghost predicate WrittenAgain(items: seq<Item>, u: string, m: Match, i: int) {
    Repeats(items, i) && u == UserData(items[i].comment) && m in items[i].adds
  }

  /** What a further sync writes: the rules of exactly the repeating items, after all others. */
  lemma FurtherSyncAdds(items: seq<Item>, next: nat, n: nat, u: string, m: Match)
    requires n > 0 && forall j :: 0 <= j < |items| ==> IsComment(items[j].comment)
    ensures var before, after := SyncTimes(Chain([], next), items, n), SyncTimes(Chain([], next), items, n + 1);
            && before.rules <= after.rules
            && ((exists r :: r in after.rules[|before.rules|..] && r.userData == u && r.meaning == m)
                <==> exists i :: WrittenAgain(items, u, m, i))
  {
    var c, after := SyncTimes(Chain([], next), items, n), SyncTimes(Chain([], next), items, n + 1);
    SyncsGrow(items, next, n);
    SyncTimesStep(Chain([], next), items, n);
    OwnOnlyGrows(c, items, AllDone(items));
    assert after.rules[|c.rules|..] == Added(c.rules, items, AllDone(items), c.nextHandle);
    AddedAgain(c, items, u, m);
  }

  lemma AddedAgain(chain: Chain, items: seq<Item>, u: string, m: Match)
    requires forall j :: 0 <= j < |items| ==> IsComment(items[j].comment)
    requires Own(chain, items) && Present(chain, items)
    ensures (exists r :: r in Added(chain.rules, items, AllDone(items), chain.nextHandle)
                         && r.userData == u && r.meaning == m)
            <==> exists i :: WrittenAgain(items, u, m, i)
  {
    var done := AllDone(items);
    AddedContents(chain.rules, items, done, chain.nextHandle, u, m);
    forall i: nat | i < |items| ensures items[i].adds[..done[i]] == items[i].adds {
    }
    forall i: nat | i < |items| && items[i].adds != [] {
      RepeatsFire(chain, items, i);
    }
    assert forall i :: Adds(chain.rules, items, done, u, m, i) <==> WrittenAgain(items, u, m, i);
  }

  lemma GrowthStep(total: nat, growth: nat, n: nat)
    requires n > 1
    ensures total + (n - 2) * growth + growth == total + (n - 1) * growth
  {
  }

  /** A further sync is silent exactly when no item repeats: this is the exact condition under
      which syncing is idempotent, and a pair enumerated twice violates it. */
  lemma FurtherSyncIsSilentIff(items: seq<Item>, next: nat, n: nat)
    requires n > 0 && forall j :: 0 <= j < |items| ==> IsComment(items[j].comment)
    ensures SyncTimes(Chain([], next), items, n + 1) == SyncTimes(Chain([], next), items, n) <==>
            forall i :: 0 <= i < |items| && items[i].adds != [] ==> !Repeats(items, i)
  {
    var c := SyncTimes(Chain([], next), items, n);
    SyncsGrow(items, next, n);
    SyncTimesStep(Chain([], next), items, n);
    OwnOnlyGrows(c, items, AllDone(items));
    NothingAdded(c.rules, items, AllDone(items), c.nextHandle);
    forall i: nat | i < |items| && items[i].adds != [] {
      RepeatsFire(c, items, i);
    }
    var added := Added(c.rules, items, AllDone(items), c.nextHandle);
    assert |c.rules + added| == |c.rules| + |added|;
  }
}
