/** What one rule sync achieves: which rules it leaves, the meaning of the chain, and the exact
    conditions under which it works. */
module FirewallTheorems {
  import opened Nets
  import opened Comments
  import opened Firewall

  // ---------------------------------------------------------------- hypotheses

  /** No comment of the enumeration is found in the user data of another one: comments are
      prefix-free and no pair is enumerated twice (see `PrefixFreeIsUnambiguous`). */
  ghost predicate Unambiguous(items: seq<Item>) {
    forall i, j | 0 <= i < |items| && 0 <= j < |items| ::
      Contains(UserData(items[i].comment), items[j].comment) ==> i == j
  }

  ghost predicate FromItem(r: Rule, it: Item) {
    r.userData == UserData(it.comment) && r.meaning in it.adds
  }

  /** A rule that an item recognises is one that item would add. */
  ghost predicate Known(chain: Chain, items: seq<Item>) {
    forall r, j :: r in chain.rules && 0 <= j < |items| && Contains(r.userData, items[j].comment)
                   ==> FromItem(r, items[j])
  }

  ghost predicate HasRule(chain: Chain, it: Item, m: Match) {
    exists r :: r in chain.rules && r.userData == UserData(it.comment) && r.meaning == m
  }

  ghost predicate Whole(chain: Chain, it: Item) {
    forall m :: m in it.adds ==> HasRule(chain, it, m)
  }

  /** The rules of an item are all present or all absent. */
  ghost predicate AllOrNothing(chain: Chain, it: Item) {
    Count(chain.rules, UserData(it.comment)) == 0 || Whole(chain, it)
  }

  ghost predicate StaleAtMost(chain: Chain, items: seq<Item>, n: nat) {
    forall u :: !KnownBefore(items, |items|, u) ==> Count(chain.rules, u) <= n
  }

  ghost predicate ItemsWant(items: seq<Item>, p: Packet) {
    exists j, m :: 0 <= j < |items| && m in items[j].adds && Hits(m, p)
  }

  lemma OwnComment(c: string)
    ensures Contains(UserData(c), c)
  {
    assert UserData(c)[2..2 + |c|] == c;
    assert OccursAt(UserData(c), c, 2);
  }

  lemma PrefixFreeIsUnambiguous(items: seq<Item>)
    requires forall i :: 0 <= i < |items| ==> IsComment(items[i].comment)
    ensures Unambiguous(items) <==>
            forall i, j :: 0 <= i < |items| && 0 <= j < |items| && items[j].comment <= items[i].comment ==> i == j
  {
    forall i, j | 0 <= i < |items| && 0 <= j < |items|
      ensures Contains(UserData(items[i].comment), items[j].comment) <==> items[j].comment <= items[i].comment
    {
      ContainsIffPrefix(items[i].comment, items[j].comment);
    }
  }

  // ---------------------------------------------------------------- one sync

  lemma KnownBeforePrefix(items: seq<Item>, k: nat, n: nat, u: string)
    requires n <= k <= |items|
    ensures KnownBefore(items[..k], n, u) <==> KnownBefore(items, n, u)
  {
    assert forall j :: 0 <= j < k ==> items[..k][j] == items[j];
    if KnownBefore(items, n, u) {
      var j :| 0 <= j < n && Contains(u, items[j].comment);
      assert Contains(u, items[..k][j].comment);
    }
  }

  lemma FiresPrefix(rules: seq<Rule>, items: seq<Item>, k: nat, i: nat)
    requires i < k <= |items|
    ensures Fires(rules, items[..k], i) <==> Fires(rules, items, i)
  {
    forall u {
      KnownBeforePrefix(items, k, i, u);
    }
  }

  ghost predicate Adds(rules: seq<Rule>, items: seq<Item>, done: seq<nat>, u: string, m: Match, i: int)
    requires Outcomes(items, done)
  {
    Fires(rules, items, i) && u == UserData(items[i].comment) && m in items[i].adds[..done[i]]
  }

  /** The rules added are those of the items that fire, up to their first failed command. */
  lemma AddedContents(rules: seq<Rule>, items: seq<Item>, done: seq<nat>, next: nat, u: string, m: Match)
    requires Outcomes(items, done)
    ensures (exists r :: r in Added(rules, items, done, next) && r.userData == u && r.meaning == m)
            <==> (exists i :: Adds(rules, items, done, u, m, i))
  {
    if r :| r in Added(rules, items, done, next) && r.userData == u && r.meaning == m {
      var i := AddedComesFrom(rules, items, done, next, r);
    }
    if i :| Adds(rules, items, done, u, m, i) {
      var r := FiringAdds(rules, items, done, next, u, m, i);
    }
  }

  lemma {:induction false} AddedComesFrom(rules: seq<Rule>, items: seq<Item>, done: seq<nat>, next: nat, r: Rule)
    returns (i: int)
    requires Outcomes(items, done) && r in Added(rules, items, done, next)
    ensures Adds(rules, items, done, r.userData, r.meaning, i)
  {
    var n := |items| - 1;
    if r in Added(rules, items[..n], done[..n], next) {
      i := AddedComesFrom(rules, items[..n], done[..n], next, r);
      FiresPrefix(rules, items, n, i);
    } else {
      i := n;
    }
  }

  lemma {:induction false} FiringAdds(rules: seq<Rule>, items: seq<Item>, done: seq<nat>, next: nat,
                                      u: string, m: Match, i: int) returns (r: Rule)
    requires Outcomes(items, done) && Adds(rules, items, done, u, m, i)
    ensures r in Added(rules, items, done, next) && r.userData == u && r.meaning == m
  {
    var n := |items| - 1;
    if i < n {
      FiresPrefix(rules, items, n, i);
      r := FiringAdds(rules, items[..n], done[..n], next, u, m, i);
    } else {
      var adds, before := items[n].adds[..done[n]], Added(rules, items[..n], done[..n], next);
      var a :| 0 <= a < |adds| && adds[a] == m;
      r := Numbered(UserData(items[n].comment), adds, next + |before|)[a];
    }
  }

  /** Under the hypotheses an item fires exactly when the chain has none of its rules. */
  lemma FiresIffAbsent(chain: Chain, items: seq<Item>, i: nat)
    requires Unambiguous(items) && Known(chain, items) && i < |items|
    ensures Fires(chain.rules, items, i) <==> Count(chain.rules, UserData(items[i].comment)) == 0
  {
    var u := UserData(items[i].comment);
    OwnComment(items[i].comment);
    assert !KnownBefore(items, i, u);
  }

  lemma CountMore(rules: seq<Rule>, userData: string, adds: seq<Match>, next: nat, u: string)
    ensures Count(rules + Numbered(userData, adds, next), u) == Count(rules, u) + if u == userData then |adds| else 0
  {
    CountConcat(rules, Numbered(userData, adds, next), u);
    CountNumbered(userData, adds, next, u);
  }

  lemma CountStep(before: seq<Rule>, after: seq<Rule>, fires: bool, userData: string, adds: seq<Match>,
                  next: nat, u: string)
    requires after == if fires then before + Numbered(userData, adds, next) else before
    ensures Count(after, u) == Count(before, u) + if fires && u == userData then |adds| else 0
  {
    CountMore(before, userData, adds, next, u);
  }

  lemma AddedCountLast(rules: seq<Rule>, items: seq<Item>, done: seq<nat>, next: nat, u: string)
    requires Outcomes(items, done) && items != []
    ensures var n := |items| - 1;
            Count(Added(rules, items, done, next), u) ==
            Count(Added(rules, items[..n], done[..n], next), u)
            + if Fires(rules, items, n) && u == UserData(items[n].comment) then done[n] else 0
  {
    var n := |items| - 1;
    var before := Added(rules, items[..n], done[..n], next);
    CountStep(before, Added(rules, items, done, next), Fires(rules, items, n), UserData(items[n].comment),
              items[n].adds[..done[n]], next + |before|, u);
  }

  ghost predicate DistinctComments(items: seq<Item>) {
    forall i, j :: 0 <= i < j < |items| ==> UserData(items[i].comment) != UserData(items[j].comment)
  }

  lemma UnambiguousIsDistinct(items: seq<Item>)
    requires Unambiguous(items)
    ensures DistinctComments(items)
  {
    forall i, j | 0 <= i < j < |items| ensures UserData(items[i].comment) != UserData(items[j].comment) {
      OwnComment(items[j].comment);
    }
  }

  lemma {:induction false} NoneAdded(rules: seq<Rule>, items: seq<Item>, done: seq<nat>, next: nat, u: string)
    requires Outcomes(items, done) && forall i :: 0 <= i < |items| ==> UserData(items[i].comment) != u
    ensures Count(Added(rules, items, done, next), u) == 0
  {
    if items != [] {
      AddedCountLast(rules, items, done, next, u);
      NoneAdded(rules, items[..|items| - 1], done[..|items| - 1], next, u);
    }
  }

  lemma {:induction false} FiredCount(rules: seq<Rule>, items: seq<Item>, done: seq<nat>, next: nat, i: nat)
    requires Outcomes(items, done) && DistinctComments(items) && i < |items|
    ensures Count(Added(rules, items, done, next), UserData(items[i].comment)) ==
            if Fires(rules, items, i) then done[i] else 0
  {
    var n := |items| - 1;
    AddedCountLast(rules, items, done, next, UserData(items[i].comment));
    if i < n {
      FiresPrefix(rules, items, n, i);
      FiredCount(rules, items[..n], done[..n], next, i);
    } else {
      NoneAdded(rules, items[..n], done[..n], next, UserData(items[n].comment));
    }
  }

  lemma AddedCount(chain: Chain, items: seq<Item>, done: seq<nat>, next: nat, i: nat)
    requires Outcomes(items, done) && Unambiguous(items) && Known(chain, items) && i < |items|
    ensures Count(Added(chain.rules, items, done, next), UserData(items[i].comment)) ==
            if Count(chain.rules, UserData(items[i].comment)) == 0 then done[i] else 0
  {
    UnambiguousIsDistinct(items);
    FiredCount(chain.rules, items, done, next, i);
    FiresIffAbsent(chain, items, i);
  }

  /** Which rules a sync leaves: those recognised by an item, the new ones, and all but one of
      the rules of each stale user data. */
  lemma SyncContents(chain: Chain, items: seq<Item>, done: seq<nat>, r: Rule)
    requires WellHandled(chain) && Outcomes(items, done)
    ensures r in SyncChain(chain, items, done).rules ==>
              r in chain.rules || r in Added(chain.rules, items, done, chain.nextHandle)
    ensures r in chain.rules && KnownBefore(items, |items|, r.userData) ==> r in SyncChain(chain, items, done).rules
    ensures r in Added(chain.rules, items, done, chain.nextHandle) ==> r in SyncChain(chain, items, done).rules
  {
    var s := RunItems(Sync(chain, RuleMapOf(chain.rules)), items, done);
    RunItemsEffect(chain, items, done);
    RuleMapFacts(chain.rules);
    AddedHandles(chain.rules, items, done, chain.nextHandle);
    if r in s.chain.rules && r.handle in HandlesOf(s.ruleMap) {
      var v :| v in s.ruleMap && s.ruleMap[v].handle == r.handle;
      EnumeratedHandles(chain, items, done);
      SameHandle(s.chain.rules, s.ruleMap[v], r);
    }
  }

  function Minus(a: nat, b: nat): nat {
    if a > b then a - b else 0
  }

  /** Unrecognised user data have lost `n` rules each, or all they had. */
  ghost predicate Drained(before: Chain, after: Chain, items: seq<Item>, n: nat) {
    forall u :: !KnownBefore(items, |items|, u) ==> Count(after.rules, u) == Minus(Count(before.rules, u), n)
  }

  /** Items that had rules keep them; the others have the rules that could be added. */
  ghost predicate Kept(before: Chain, after: Chain, items: seq<Item>, done: seq<nat>)
    requires Outcomes(items, done)
  {
    forall i :: 0 <= i < |items| ==>
      var u := UserData(items[i].comment);
      Count(after.rules, u) == if Count(before.rules, u) > 0 then Count(before.rules, u) else done[i]
  }

  /** Nothing in `after` is from elsewhere: its rules were in `before` or were written for an item. */
  ghost predicate NothingStrange(before: Chain, after: Chain, items: seq<Item>) {
    forall r :: r in after.rules ==> r in before.rules || IsOwn(r, items)
  }

  ghost predicate IsOwn(r: Rule, items: seq<Item>) {
    exists i :: 0 <= i < |items| && FromItem(r, items[i])
  }

  /** The rules that some item recognises are all still there. */
  ghost predicate RecognisedKept(before: Chain, after: Chain, items: seq<Item>) {
    forall r :: r in before.rules && KnownBefore(items, |items|, r.userData) ==> r in after.rules
  }

  lemma AddedIsOwn(rules: seq<Rule>, items: seq<Item>, done: seq<nat>, next: nat, r: Rule)
    requires Outcomes(items, done) && r in Added(rules, items, done, next)
    ensures IsOwn(r, items) && KnownBefore(items, |items|, r.userData)
  {
    var i := AddedComesFrom(rules, items, done, next, r);
    assert FromItem(r, items[i]);
    OwnComment(items[i].comment);
  }

  /** One sync with no assumption on comments, whatever its command outcomes: every unrecognised
      user data loses exactly one rule, and nothing else is deleted. */
  lemma SyncDrains(chain: Chain, items: seq<Item>, done: seq<nat>)
    requires WellHandled(chain) && Outcomes(items, done)
    ensures var c := SyncChain(chain, items, done);
            && WellHandled(c) && Drained(chain, c, items, 1)
            && NothingStrange(chain, c, items) && RecognisedKept(chain, c, items)
  {
    var c, added := SyncChain(chain, items, done), Added(chain.rules, items, done, chain.nextHandle);
    SyncKeepsHandles(chain, items, done);
    forall r | r in added ensures IsOwn(r, items) && KnownBefore(items, |items|, r.userData) {
      AddedIsOwn(chain.rules, items, done, chain.nextHandle, r);
    }
    forall r {
      SyncContents(chain, items, done, r);
    }
    forall u | !KnownBefore(items, |items|, u) ensures Count(c.rules, u) == Minus(Count(chain.rules, u), 1) {
      SyncCounts(chain, items, done, u);
    }
  }

  /** One sync, whatever its command outcomes: the hypotheses stay true, every unrecognised user
      data loses exactly one rule, and an item keeps its rules or gains those that succeed. */
  lemma SyncStep(chain: Chain, items: seq<Item>, done: seq<nat>)
    requires WellHandled(chain) && Outcomes(items, done) && Unambiguous(items) && Known(chain, items)
    ensures var c := SyncChain(chain, items, done);
            && WellHandled(c) && Known(c, items)
            && Drained(chain, c, items, 1) && Kept(chain, c, items, done)
  {
    var c := SyncChain(chain, items, done);
    SyncDrains(chain, items, done);
    forall r, j | r in c.rules && 0 <= j < |items| && Contains(r.userData, items[j].comment)
      ensures FromItem(r, items[j])
    {
      SyncContents(chain, items, done, r);
      if r !in chain.rules {
        AddedContents(chain.rules, items, done, chain.nextHandle, r.userData, r.meaning);
        var i :| Adds(chain.rules, items, done, r.userData, r.meaning, i);
      }
    }
    forall i | 0 <= i < |items|
      ensures var u := UserData(items[i].comment);
              Count(c.rules, u) == if Count(chain.rules, u) > 0 then Count(chain.rules, u) else done[i]
    {
      OwnComment(items[i].comment);
      SyncCounts(chain, items, done, UserData(items[i].comment));
      AddedCount(chain, items, done, chain.nextHandle, i);
    }
  }

  /** The first `n` rules of an item are all of them. */
  ghost predicate Covers(it: Item, n: nat) {
    n <= |it.adds| && forall m :: m in it.adds ==> m in it.adds[..n]
  }

  lemma AddedRulesOfItem(chain: Chain, items: seq<Item>, done: seq<nat>, i: nat, m: Match)
    requires WellHandled(chain) && Outcomes(items, done) && Unambiguous(items) && Known(chain, items) && i < |items|
    requires Count(chain.rules, UserData(items[i].comment)) == 0
    ensures HasRule(SyncChain(chain, items, done), items[i], m) <==> m in items[i].adds[..done[i]]
  {
    var c, u := SyncChain(chain, items, done), UserData(items[i].comment);
    UnambiguousIsDistinct(items);
    FiresIffAbsent(chain, items, i);
    AddedContents(chain.rules, items, done, chain.nextHandle, u, m);
    if r :| r in c.rules && r.userData == u && r.meaning == m {
      SyncContents(chain, items, done, r);
      var k :| Adds(chain.rules, items, done, u, m, k);
      assert k == i;
    }
    if m in items[i].adds[..done[i]] {
      assert Adds(chain.rules, items, done, u, m, i);
      var r :| r in Added(chain.rules, items, done, chain.nextHandle) && r.userData == u && r.meaning == m;
      SyncContents(chain, items, done, r);
    }
  }

  lemma OldRulesOfItem(chain: Chain, items: seq<Item>, done: seq<nat>, i: nat, m: Match)
    requires WellHandled(chain) && Outcomes(items, done) && Unambiguous(items) && Known(chain, items) && i < |items|
    requires Count(chain.rules, UserData(items[i].comment)) > 0
    ensures HasRule(SyncChain(chain, items, done), items[i], m) <==> HasRule(chain, items[i], m)
  {
    var c, u := SyncChain(chain, items, done), UserData(items[i].comment);
    OwnComment(items[i].comment);
    AddedCount(chain, items, done, chain.nextHandle, i);
    forall r: Rule | r.userData == u ensures r in c.rules <==> r in chain.rules {
      SyncContents(chain, items, done, r);
    }
  }

  /** After a sync all rules of an item are present exactly if they were before, or if none was and
      all could be added: a half-written DNS/HTTP pair is never completed. */
  lemma WholeAfterSyncIff(chain: Chain, items: seq<Item>, done: seq<nat>, i: nat)
    requires WellHandled(chain) && Outcomes(items, done) && Unambiguous(items) && Known(chain, items) && i < |items|
    ensures Whole(SyncChain(chain, items, done), items[i]) <==>
            if Count(chain.rules, UserData(items[i].comment)) > 0 then Whole(chain, items[i])
            else Covers(items[i], done[i])
  {
    if Count(chain.rules, UserData(items[i].comment)) > 0 {
      forall m {
        OldRulesOfItem(chain, items, done, i, m);
      }
    } else {
      forall m {
        AddedRulesOfItem(chain, items, done, i, m);
      }
    }
  }

  /** The rules that the configuration recognises accept nothing it does not want. */
  ghost predicate NoImpostor(chain: Chain, items: seq<Item>) {
    forall r, p :: r in chain.rules && KnownBefore(items, |items|, r.userData) && Hits(r.meaning, p)
                   ==> ItemsWant(items, p)
  }

  ghost predicate NothingUnwanted(chain: Chain, items: seq<Item>) {
    forall p :: Accepts(chain, p) ==> ItemsWant(items, p)
  }

  /** With no assumption on comments: once the stale rules are gone, exactly the impostors among the
      recognised rules of the former chain can let unwanted packets through, and they do. */
  lemma NothingUnwantedIff(before: Chain, after: Chain, items: seq<Item>)
    requires NothingStrange(before, after, items) && RecognisedKept(before, after, items)
    requires StaleAtMost(after, items, 0)
    ensures NothingUnwanted(after, items) <==> NoImpostor(before, items)
  {
    if NothingUnwanted(after, items) {
      forall r, p | r in before.rules && KnownBefore(items, |items|, r.userData) && Hits(r.meaning, p)
        ensures ItemsWant(items, p)
      {
        assert Accepts(after, p);
      }
    }
    if NoImpostor(before, items) {
      forall r, p | r in after.rules && Hits(r.meaning, p) ensures ItemsWant(items, p) {
        assert Count(after.rules, r.userData) > 0;
        if r !in before.rules {
          var i :| 0 <= i < |items| && FromItem(r, items[i]);
        }
      }
    }
  }

  /** All wanted packets get through where all items have their rules. */
  lemma WholeAccepts(chain: Chain, items: seq<Item>, p: Packet)
    requires forall i :: 0 <= i < |items| ==> Whole(chain, items[i])
    ensures ItemsWant(items, p) ==> Accepts(chain, p)
  {
    if ItemsWant(items, p) {
      var j, m :| 0 <= j < |items| && m in items[j].adds && Hits(m, p);
      assert HasRule(chain, items[j], m);
    }
  }

  /** A chain whose recognised rules are the items' own has no impostors. */
  lemma KnownIsNoImpostor(chain: Chain, items: seq<Item>)
    requires Known(chain, items)
    ensures NoImpostor(chain, items)
  {
    forall r, p | r in chain.rules && KnownBefore(items, |items|, r.userData) && Hits(r.meaning, p)
      ensures ItemsWant(items, p)
    {
      var j :| 0 <= j < |items| && Contains(r.userData, items[j].comment);
      assert FromItem(r, items[j]);
    }
  }

  lemma {:induction false} DeleteNothing(rules: seq<Rule>)
    ensures Delete(rules, {}) == rules
  {
    if rules != [] {
      var init, last := rules[..|rules| - 1], rules[|rules| - 1];
      DeleteNothing(init);
      assert init + [last] == rules;
    }
  }

  lemma NothingAdded(rules: seq<Rule>, items: seq<Item>, done: seq<nat>, next: nat)
    requires Outcomes(items, done)
    ensures Added(rules, items, done, next) == [] <==>
            forall i :: 0 <= i < |items| && Fires(rules, items, i) ==> done[i] == 0
  {
    var added := Added(rules, items, done, next);
    if added != [] {
      AddedContents(rules, items, done, next, added[0].userData, added[0].meaning);
      assert added[0] in added;
      var i :| Adds(rules, items, done, added[0].userData, added[0].meaning, i);
      assert done[i] > 0;
    } else {
      forall i | 0 <= i < |items| && Fires(rules, items, i) ensures done[i] == 0 {
        if done[i] > 0 {
          var m := items[i].adds[..done[i]][0];
          assert Adds(rules, items, done, UserData(items[i].comment), m, i);
          AddedContents(rules, items, done, next, UserData(items[i].comment), m);
        }
      }
    }
  }

  /** A sync that finds every rule recognised and every item present changes nothing. */
  lemma SyncIsSilent(chain: Chain, items: seq<Item>, done: seq<nat>)
    requires WellHandled(chain) && Outcomes(items, done) && Unambiguous(items) && Known(chain, items)
    requires StaleAtMost(chain, items, 0)
    requires forall i :: 0 <= i < |items| && items[i].adds != [] ==> Count(chain.rules, UserData(items[i].comment)) > 0
    ensures SyncChain(chain, items, done) == chain
  {
    var s := RunItems(Sync(chain, RuleMapOf(chain.rules)), items, done);
    RunItemsEffect(chain, items, done);
    RuleMapFacts(chain.rules);
    forall i | 0 <= i < |items| && Fires(chain.rules, items, i) ensures done[i] == 0 {
      FiresIffAbsent(chain, items, i);
    }
    NothingAdded(chain.rules, items, done, chain.nextHandle);
    assert s.chain.rules == chain.rules;
    forall u | u in RuleMapOf(chain.rules) ensures KnownBefore(items, |items|, u) {
      assert RuleMapOf(chain.rules)[u] in chain.rules;
      assert Count(chain.rules, u) > 0;
    }
    assert HandlesOf(s.ruleMap) == {};
    DeleteNothing(chain.rules);
  }
}
