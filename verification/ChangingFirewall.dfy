/** Rule syncs of several configurations in flight: when the newest one wins, and what is left of a
    sync of another one does to a chain that was right. */
module ChangingFirewall {
  import opened Nets
  import opened Comments
  import opened Firewall
  import opened FirewallTheorems
  import opened FirewallConfig
  import opened FirewallHistory
  import opened ConcurrentFirewall

  // ---------------------------------------------------------------- the newest configuration

  /** If the step adds or deletes rules, it is of a sync of the configuration. */
  ghost predicate WritesFor(w: World, a: Action, items: seq<Item>) {
    a.AddOne? || a.Flush? ==> a.id in w.flights && w.flights[a.id].items == items
  }

  /** From step `b` on only syncs of the configuration add or delete rules. */
  ghost predicate OnlyWrites(ws: seq<World>, acts: seq<Action>, items: seq<Item>, b: nat)
    requires |ws| > |acts|
  {
    forall i {:trigger WritesFor(ws[i], acts[i], items)} :: b <= i < |acts| ==> WritesFor(ws[i], acts[i], items)
  }

  /** A flight that is under way before step `k` and began at step `b` or later. */
  ghost predicate BegunSince(acts: seq<Action>, b: nat, k: nat, id: nat) {
    exists j :: b <= j < k <= |acts| && acts[j].Begin? && acts[j].id == id
  }

  /** How many of the syncs that began at step `b` or later have completed before step `k`. */
  ghost function CompletedSince(acts: seq<Action>, b: nat, k: nat): nat
    requires b <= k <= |acts|
  {
    if k == b then 0
    else
      CompletedSince(acts, b, k - 1) + if acts[k - 1].Flush? && BegunSince(acts, b, k - 1, acts[k - 1].id) then 1 else 0
  }

  /** With `n` as the largest stale multiplicity at step `b`: every sync begun since then takes one rule
      per stale user data, whatever syncs begun earlier still remember. */
  ghost predicate DrainsSince(ws: seq<World>, acts: seq<Action>, items: seq<Item>, b: nat, k: nat, n: nat)
    requires b <= k <= |acts| < |ws|
  {
    && (forall u :: !Wanted(items, u) ==> Count(ws[k].chain.rules, u) <= Minus(n, CompletedSince(acts, b, k)))
    && (forall id :: id in ws[k].flights && BegunSince(acts, b, k, id) && ws[k].flights[id].items == items ==>
          KnowsStale(items, ws[k].chain, ws[k].flights[id]))
  }

  /** What a flush needs to go through makes the memory of its sync good. */
  lemma FlushedIsGood(chain: Chain, f: Flight)
    requires OrderlyFlight(chain, f) && AllThere(chain, f)
    ensures GoodFlight(f.items, chain, f)
  {
  }

  lemma NoMoreStale(items: seq<Item>, before: Chain, after: Chain, f: Flight)
    requires KnowsStale(items, before, f)
    requires forall u :: !Wanted(items, u) ==> Count(after.rules, u) <= Count(before.rules, u)
    ensures KnowsStale(items, after, f)
  {
  }

  lemma StepAddsNoStale(items: seq<Item>, w: World, a: Action, w': World)
    requires Orderly(w) && Step(w, a, w') && WritesFor(w, a, items)
    ensures forall u :: !Wanted(items, u) ==> Count(w'.chain.rules, u) <= Count(w.chain.rules, u)
  {
    forall u | !Wanted(items, u) ensures Count(w'.chain.rules, u) <= Count(w.chain.rules, u) {
      if a.AddOne? {
        var f := w.flights[a.id];
        AddOneIsNotStale(items, w.chain, f.pos, items[f.pos].adds[f.adding.value], u);
      } else if a.Flush? {
        DeleteCountsNoMore(w.chain.rules, HandlesOf(w.flights[a.id].ruleMap), u);
      }
    }
  }

  lemma StepKnowsStale(ws: seq<World>, acts: seq<Action>, items: seq<Item>, b: nat, k: nat, n: nat, id: nat)
    requires Execution(ws, acts) && b < k <= |acts| && OnlyWrites(ws, acts, items, b)
    requires DrainsSince(ws, acts, items, b, k - 1, n)
    requires id in ws[k].flights && BegunSince(acts, b, k, id) && ws[k].flights[id].items == items
    ensures KnowsStale(items, ws[k].chain, ws[k].flights[id])
  {
    var w, a, w' := ws[k - 1], acts[k - 1], ws[k];
    ExecutionIsOrderly(ws, acts, k - 1);
    assert Step(w, a, w') && WritesFor(w, a, items);
    if a.Begin? && a.id == id {
      BeginKnowsStale(items, w.chain);
    } else {
      var j :| b <= j < k && acts[j].Begin? && acts[j].id == id;
      assert BegunSince(acts, b, k - 1, id);
      assert KnowsStale(items, w.chain, w.flights[id]);
      StepAddsNoStale(items, w, a, w');
      NoMoreStale(items, w.chain, w'.chain, w.flights[id]);
      if a == Look(id) {
        LookKnowsStale(items, w.chain, w.flights[id]);
      }
    }
  }

  lemma StepDrainsSince(ws: seq<World>, acts: seq<Action>, items: seq<Item>, b: nat, k: nat, n: nat)
    requires Execution(ws, acts) && b < k <= |acts| && OnlyWrites(ws, acts, items, b)
    requires DrainsSince(ws, acts, items, b, k - 1, n)
    ensures DrainsSince(ws, acts, items, b, k, n)
  {
    var w, a, w' := ws[k - 1], acts[k - 1], ws[k];
    ExecutionIsOrderly(ws, acts, k - 1);
    assert Step(w, a, w') && WritesFor(w, a, items);
    StepAddsNoStale(items, w, a, w');
    forall id | id in w'.flights && BegunSince(acts, b, k, id) && w'.flights[id].items == items
      ensures KnowsStale(items, w'.chain, w'.flights[id])
    {
      StepKnowsStale(ws, acts, items, b, k, n, id);
    }
    if a.Flush? && BegunSince(acts, b, k - 1, a.id) {
      FlushedIsGood(w.chain, w.flights[a.id]);
      FlushDrains(items, w.chain, w.flights[a.id], n, CompletedSince(acts, b, k - 1));
    }
  }

  lemma DrainsAtFirst(ws: seq<World>, acts: seq<Action>, items: seq<Item>, b: nat, n: nat)
    requires b <= |acts| < |ws| && StaleAtMost(ws[b].chain, items, n)
    ensures DrainsSince(ws, acts, items, b, b, n)
  {
  }

  lemma {:induction false} ExecutionDrainsSince(ws: seq<World>, acts: seq<Action>, items: seq<Item>, b: nat, k: nat,
                                                n: nat)
    requires Execution(ws, acts) && b <= k <= |acts| && OnlyWrites(ws, acts, items, b)
    requires StaleAtMost(ws[b].chain, items, n)
    ensures DrainsSince(ws, acts, items, b, k, n)
    decreases k - b
  {
    if b == k {
      DrainsAtFirst(ws, acts, items, b, n);
    } else {
      ExecutionDrainsSince(ws, acts, items, b, k - 1, n);
      StepDrainsSince(ws, acts, items, b, k, n);
    }
  }

  /** Wanted rules are kept, and only rules of the items are added. */
  ghost predicate OwnOnly(items: seq<Item>, before: Chain, after: Chain) {
    Grows(items, before, after) && NothingStrange(before, after, items)
  }

  lemma StepKeepsOwn(items: seq<Item>, w: World, a: Action, w': World)
    requires Orderly(w) && Step(w, a, w') && WritesFor(w, a, items)
    ensures OwnOnly(items, w.chain, w'.chain)
  {
    StepGrows(items, w, a, w');
    if a.AddOne? {
      var f := w.flights[a.id];
      var new_ := Rule(w.chain.nextHandle, UserData(Adding(f).comment), Adding(f).adds[f.adding.value]);
      assert w'.chain.rules == w.chain.rules + [new_];
      assert FromItem(new_, items[f.pos]);
    }
  }

  lemma OwnOnlyAt(ws: seq<World>, acts: seq<Action>, items: seq<Item>, b: nat, k: nat)
    requires Execution(ws, acts) && b <= k < |acts| && OnlyWrites(ws, acts, items, b)
    ensures OwnOnly(items, ws[k].chain, ws[k + 1].chain)
  {
    ExecutionIsOrderly(ws, acts, k);
    assert WritesFor(ws[k], acts[k], items);
    StepKeepsOwn(items, ws[k], acts[k], ws[k + 1]);
  }

  lemma OwnOnlyTwice(items: seq<Item>, a: Chain, b: Chain, c: Chain)
    requires OwnOnly(items, a, b) && OwnOnly(items, b, c)
    ensures OwnOnly(items, a, c)
  {
  }

  lemma {:induction false} KeepsOwnSince(ws: seq<World>, acts: seq<Action>, items: seq<Item>, b: nat, k: nat)
    requires Execution(ws, acts) && b <= k <= |acts| && OnlyWrites(ws, acts, items, b)
    ensures OwnOnly(items, ws[b].chain, ws[k].chain)
    decreases k - b
  {
    if b < k {
      KeepsOwnSince(ws, acts, items, b, k - 1);
      OwnOnlyAt(ws, acts, items, b, k - 1);
      OwnOnlyTwice(items, ws[b].chain, ws[k - 1].chain, ws[k].chain);
    }
  }

  /** Safety with any configurations, any comments and any failures in any interleaving: once no sync
      of another configuration adds or deletes rules any more, and as many syncs begun since then have
      completed as the largest stale multiplicity was, only permitted packets are accepted if and only
      if no rule that the configuration recognised back then was an intruder. */
  lemma NewestRulesWinIff(env: Parsers, show: Show, config: Config, ws: seq<World>, acts: seq<Action>,
                          b: nat, i: nat, n: nat)
    requires Execution(ws, acts) && b <= i <= |acts| && OnlyWrites(ws, acts, ConfigItems(env, show, config), b)
    requires StaleAtMost(ws[b].chain, ConfigItems(env, show, config), n) && CompletedSince(acts, b, i) >= n
    ensures OnlyPermitted(env, config, ws[i].chain) <==> NoIntruder(env, show, config, ws[b].chain)
  {
    var items := ConfigItems(env, show, config);
    ExecutionDrainsSince(ws, acts, items, b, i, n);
    KeepsOwnSince(ws, acts, items, b, i);
    NothingUnwantedIff(ws[b].chain, ws[i].chain, items);
    NoIntruderIsNoImpostor(env, show, config, ws[b].chain);
    OnlyPermittedIsNothingUnwanted(env, show, config, ws[i].chain);
  }

  // ---------------------------------------------------------------- the list of rules

  /** The step neither adds a rule nor deletes one. */
  ghost predicate Harmless(w: World, a: Action) {
    !a.AddOne? && (a.Flush? && a.id in w.flights ==> w.flights[a.id].ruleMap == map[])
  }

  /** A chain that is exact for one configuration stays so through a step of a sync of any
      configuration, begun at any time, if and only if the step is harmless. */
  lemma StepKeepsExactIff(w: World, a: Action, w': World, items: seq<Item>)
    requires Step(w, a, w') && Exact(w.chain, items)
    ensures Exact(w'.chain, items) <==> Harmless(w, a)
    ensures Harmless(w, a) ==> w'.chain == w.chain
  {
    if a.AddOne? {
      var f := w.flights[a.id];
      OneMoreIsNotExact(w.chain, items, UserData(Adding(f).comment), Adding(f).adds[f.adding.value], w'.chain);
    } else if a.Flush? && w.flights[a.id].ruleMap != map[] {
      var f := w.flights[a.id];
      var u :| u in f.ruleMap;
      OneLessIsNotExact(w.chain, items, HandlesOf(f.ruleMap), f.ruleMap[u]);
    } else if a.Flush? {
      assert HandlesOf(w.flights[a.id].ruleMap) == {};
      DeleteNothing(w.chain.rules);
    }
  }

  lemma OneMoreIsNotExact(chain: Chain, items: seq<Item>, u: string, m: Match, after: Chain)
    requires Exact(chain, items) && after.rules == chain.rules + Numbered(u, [m], chain.nextHandle)
    ensures !Exact(after, items)
  {
    CountMore(chain.rules, u, [m], chain.nextHandle, u);
    ExactCountsAgree(chain, after, items, u);
  }

  lemma ExactCountsAgree(a: Chain, b: Chain, items: seq<Item>, u: string)
    requires Exact(a, items) && Count(b.rules, u) > 0
    ensures Exact(b, items) ==> Count(a.rules, u) == Count(b.rules, u)
  {
    if Exact(b, items) {
      var r :| r in b.rules && r.userData == u;
      var i := OwnerOf(b, items, r);
    }
  }

  lemma OneLessIsNotExact(chain: Chain, items: seq<Item>, handles: set<nat>, r: Rule)
    requires Exact(chain, items) && r in chain.rules && r.handle in handles
    ensures !Exact(Chain(Delete(chain.rules, handles), chain.nextHandle), items)
  {
    var i := OwnerOf(chain, items, r);
    DeletedCountsLess(chain.rules, handles, r);
  }

  lemma {:induction false} DeletedCountsLess(rules: seq<Rule>, handles: set<nat>, r: Rule)
    requires r in rules && r.handle in handles
    ensures Count(Delete(rules, handles), r.userData) < Count(rules, r.userData)
  {
    var init, last := rules[..|rules| - 1], rules[|rules| - 1];
    assert rules == init + [last];
    DeleteCountsNoMore(init, handles, r.userData);
    if r in init {
      DeletedCountsLess(init, handles, r);
    }
  }

  lemma {:induction false} DeleteCountsNoMore(rules: seq<Rule>, handles: set<nat>, u: string)
    ensures Count(Delete(rules, handles), u) <= Count(rules, u)
  {
    if rules != [] {
      DeleteCountsNoMore(rules[..|rules| - 1], handles, u);
    }
  }

  /** Over every execution, with syncs of any configurations in flight: from a chain that is exact for
      one of them, the chain stays exact for it if and only if every step is harmless. */
  lemma {:induction false} StaysExactIff(items: seq<Item>, ws: seq<World>, acts: seq<Action>, i: nat, j: nat)
    requires Execution(ws, acts) && i <= j < |ws| && Exact(ws[i].chain, items)
    ensures (forall k :: i <= k <= j ==> Exact(ws[k].chain, items)) <==>
            (forall k {:trigger Harmless(ws[k], acts[k])} :: i <= k < j ==> Harmless(ws[k], acts[k]))
    decreases j - i
  {
    if i < j {
      StaysExactIff(items, ws, acts, i, j - 1);
      assert Step(ws[j - 1], acts[j - 1], ws[j]);
      if Exact(ws[j - 1].chain, items) {
        StepKeepsExactIff(ws[j - 1], acts[j - 1], ws[j], items);
      }
    }
  }

  /** Two configurations in flight, and the older one wins: a sync of the configuration without peers
      lists the chain, a sync of the newer one finds its rule and completes, and then the older one
      deletes that rule. */
  lemma OlderRulesCanWin(it: Item, rule: Rule) returns (w: World, w1: World, w2: World, w3: World, w4: World, w5: World)
    requires it.adds == [rule.meaning] && rule.userData == UserData(it.comment)
    ensures WellHandled(w.chain) && w.flights == map[] && w.completed == 0
    ensures Step(w, Begin(0, []), w1) && Step(w1, Begin(1, [it]), w2) && Step(w2, Look(1), w3) && Step(w3, Flush(1), w4)
    ensures Step(w4, Flush(0), w5)
    ensures Exact(w.chain, [it]) && Exact(w4.chain, [it]) && w5.flights == map[] && w5.chain.rules == []
  {
    OneRuleIsExact(it, rule);
    MapOfOne(rule);
    FindsItsRule(it, rule);
    DeletesItsRule(rule);
    w, w1, w2, w3, w4, w5 := OlderLast(it, rule);
  }

  lemma OlderLast(it: Item, rule: Rule) returns (w: World, w1: World, w2: World, w3: World, w4: World, w5: World)
    requires RuleMapOf([rule]) == map[rule.userData := rule]
    requires Looked(Flight([it], map[rule.userData := rule], 0, None)) == Flight([it], map[], 1, None)
    requires Delete([rule], HandlesOf(map[])) == [rule] && Delete([rule], HandlesOf(map[rule.userData := rule])) == []
    ensures w == World(Chain([rule], rule.handle + 1), map[], 0)
    ensures Step(w, Begin(0, []), w1) && Step(w1, Begin(1, [it]), w2) && Step(w2, Look(1), w3) && Step(w3, Flush(1), w4)
    ensures Step(w4, Flush(0), w5)
    ensures w4.chain == w.chain && w5.flights == map[] && w5.chain.rules == []
  {
    var rules := map[rule.userData := rule];
    w := World(Chain([rule], rule.handle + 1), map[], 0);
    w1 := w.(flights := map[0 := Flight([], rules, 0, None)]);
    w2 := w1.(flights := w1.flights[1 := Flight([it], rules, 0, None)]);
    w3 := w2.(flights := w2.flights[1 := Flight([it], map[], 1, None)]);
    w4 := w3.(flights := w3.flights - {1}, completed := 1);
    w5 := World(Chain([], rule.handle + 1), w4.flights - {0}, 2);
  }

  lemma MapOfOne(rule: Rule)
    ensures RuleMapOf([rule]) == map[rule.userData := rule]
  {
    assert RuleMapOf([rule][..0]) == map[];
  }

  lemma FindsItsRule(it: Item, rule: Rule)
    requires rule.userData == UserData(it.comment)
    ensures Looked(Flight([it], map[rule.userData := rule], 0, None)) == Flight([it], map[], 1, None)
  {
    OwnComment(it.comment);
    assert rule.userData in Recognised(map[rule.userData := rule], it.comment);
  }

  lemma DeletesItsRule(rule: Rule)
    ensures Delete([rule], HandlesOf(map[])) == [rule] && Delete([rule], HandlesOf(map[rule.userData := rule])) == []
  {
    var none: RuleMap, rules := map[], map[rule.userData := rule];
    assert HandlesOf(none) == {};
    DeleteNothing([rule]);
    assert rule.userData in rules && rule.handle in HandlesOf(rules);
    assert [rule][..0] == [];
  }

  lemma OneRuleIsExact(it: Item, rule: Rule)
    requires it.adds == [rule.meaning] && rule.userData == UserData(it.comment)
    ensures Exact(Chain([rule], rule.handle + 1), [it])
  {
    var chain := Chain([rule], rule.handle + 1);
    assert rule in chain.rules && [it][0] == it;
    assert Count([rule][..0], rule.userData) == 0;
    OwnComment(it.comment);
    assert KnownBefore([it], 1, rule.userData);
  }
}
