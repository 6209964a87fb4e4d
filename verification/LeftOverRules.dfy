/** What is left of a rule sync of another configuration, and what it does to a chain that accepts
    exactly what the present configuration wants. */
module LeftOverRules {
  import opened Nets
  import opened Comments
  import opened Firewall
  import opened FirewallTheorems
  import opened ConcurrentFirewall
  import FirewallRun

  // ---------------------------------------------------------------- the rest of a sync

  /** The items a sync has yet to look for. */
  function Rest(f: Flight): seq<Item>
    requires Passed(f) <= |f.items|
  {
    f.items[Passed(f)..]
  }

  /** Outcomes of what is left: `more` rules of the item it is adding, and those of the items to come. */
  ghost predicate CanEnd(f: Flight, more: nat, outs: seq<nat>) {
    && Passed(f) <= |f.items| && Outcomes(Rest(f), outs)
    && if f.adding.Some? then f.adding.value + more <= |Adding(f).adds| else more == 0
  }

  /** The outcomes when no command fails. */
  ghost predicate Unfailing(f: Flight, more: nat, outs: seq<nat>)
    requires CanEnd(f, more, outs)
  {
    outs == AllDone(Rest(f)) && (f.adding.Some? ==> f.adding.value + more == |Adding(f).adds|)
  }

  ghost function MoreAdded(chain: Chain, f: Flight, more: nat, outs: seq<nat>): Chain
    requires CanEnd(f, more, outs)
  {
    if f.adding.None? then chain
    else AddRules(chain, Adding(f).comment, Adding(f).adds[f.adding.value..f.adding.value + more])
  }

  ghost function Enumerated(chain: Chain, f: Flight, more: nat, outs: seq<nat>): Sync
    requires CanEnd(f, more, outs)
  {
    RunItems(Sync(MoreAdded(chain, f, more, outs), f.ruleMap), Rest(f), outs)
  }

  /** The flush, which is rejected if one of the rules is gone. */
  ghost function Flushed(s: Sync): Chain {
    if forall u :: u in s.ruleMap ==> s.ruleMap[u] in s.chain.rules
    then Chain(Delete(s.chain.rules, HandlesOf(s.ruleMap)), s.chain.nextHandle)
    else s.chain
  }

  /** The chain after the rest of the sync has run alone. */
  ghost function Landed(chain: Chain, f: Flight, more: nat, outs: seq<nat>): Chain
    requires CanEnd(f, more, outs)
  {
    Flushed(Enumerated(chain, f, more, outs))
  }

  /** A sync that has just begun and runs alone is the sync of one controller. */
  lemma FreshSyncLands(chain: Chain, items: seq<Item>, done: seq<nat>)
    requires Outcomes(items, done)
    ensures var f := Flight(items, RuleMapOf(chain.rules), 0, None);
            CanEnd(f, 0, done) && Landed(chain, f, 0, done) == SyncChain(chain, items, done)
  {
    assert items[0..] == items;
    RunItemsEffect(chain, items, done);
    RuleMapFacts(chain.rules);
  }

  // ---------------------------------------------------------------- the steps of the rest

  lemma RunFirst(s: Sync, it: Item, done: nat, rest: seq<Item>, outs: seq<nat>)
    requires done <= |it.adds| && Outcomes(rest, outs)
    ensures Outcomes([it] + rest, [done] + outs)
    ensures RunItems(s, [it] + rest, [done] + outs) == RunItems(ItemStep(s, it, done), rest, outs)
  {
    FirewallRun.RunConcat(s, [it], [done], rest, outs);
    FirewallRun.RunSnoc(s, [], [], it, done);
    assert [] + [it] == [it] && [] + [done] == [done];
  }

  lemma AllDoneFirst(it: Item, rest: seq<Item>)
    ensures AllDone([it] + rest) == [|it.adds|] + AllDone(rest)
  {
  }

  /** The outcome of the item that is looked for: if it is found, it does not matter. */
  function LookedDone(f: Flight, more': nat): nat
    requires f.pos < |f.items|
  {
    if Looked(f).adding.Some? then more' else |f.items[f.pos].adds|
  }

  lemma LookCanEnd(f: Flight, more': nat, outs': seq<nat>)
    requires f.adding.None? && f.pos < |f.items| && CanEnd(Looked(f), more', outs')
    ensures CanEnd(f, 0, [LookedDone(f, more')] + outs')
    ensures Unfailing(Looked(f), more', outs') ==> Unfailing(f, 0, [LookedDone(f, more')] + outs')
  {
    var it, rest := f.items[f.pos], f.items[f.pos + 1..];
    assert Rest(f) == [it] + rest && Rest(Looked(f)) == rest;
    AllDoneFirst(it, rest);
  }

  lemma LookLands(chain: Chain, f: Flight, more': nat, outs': seq<nat>)
    requires f.adding.None? && f.pos < |f.items| && CanEnd(Looked(f), more', outs')
    requires CanEnd(f, 0, [LookedDone(f, more')] + outs')
    ensures Enumerated(chain, f, 0, [LookedDone(f, more')] + outs') == Enumerated(chain, Looked(f), more', outs')
  {
    var it, rest := f.items[f.pos], Rest(Looked(f));
    assert Rest(f) == [it] + rest;
    LookIsItemStep(chain, f, more', outs', LookedDone(f, more'));
    RunFirst(Sync(chain, f.ruleMap), it, LookedDone(f, more'), rest, outs');
  }

  lemma LookIsItemStep(chain: Chain, f: Flight, more': nat, outs': seq<nat>, done: nat)
    requires f.adding.None? && f.pos < |f.items| && CanEnd(Looked(f), more', outs')
    requires done == LookedDone(f, more')
    ensures ItemStep(Sync(chain, f.ruleMap), f.items[f.pos], done) ==
            Sync(MoreAdded(chain, Looked(f), more', outs'), Looked(f).ruleMap)
  {
    var it := f.items[f.pos];
    assert Looked(f).adding.Some? ==> f.ruleMap - Recognised(f.ruleMap, it.comment) == f.ruleMap;
    assert Looked(f).adding.Some? ==> it.adds[0..0 + more'] == it.adds[..done];
  }

  lemma NumberedConcat(u: string, m: Match, ms: seq<Match>, next: nat)
    ensures Numbered(u, [m], next) + Numbered(u, ms, next + 1) == Numbered(u, [m] + ms, next)
  {
  }

  lemma AddInTwo(chain: Chain, comment: string, m: Match, ms: seq<Match>)
    ensures AddRules(AddRules(chain, comment, [m]), comment, ms) == AddRules(chain, comment, [m] + ms)
  {
    var u, next := UserData(comment), chain.nextHandle;
    var a, b := Numbered(u, [m], next), Numbered(u, ms, next + 1);
    NumberedConcat(u, m, ms, next);
    assert (chain.rules + a) + b == chain.rules + (a + b);
  }

  lemma AddOneLands(chain: Chain, f: Flight, more': nat, outs: seq<nat>)
    requires f.adding.Some? && Passed(f) <= |f.items| && f.adding.value < |Adding(f).adds|
    requires CanEnd(f.(adding := Some(f.adding.value + 1)), more', outs)
    ensures CanEnd(f, more' + 1, outs)
    ensures Landed(chain, f, more' + 1, outs) ==
            Landed(OneMore(chain, f), f.(adding := Some(f.adding.value + 1)), more', outs)
  {
    var adds, n := Adding(f).adds, f.adding.value;
    AddInTwo(chain, Adding(f).comment, adds[n], adds[n + 1..n + 1 + more']);
    assert [adds[n]] + adds[n + 1..n + 1 + more'] == adds[n..n + more' + 1];
  }

  lemma StopLands(chain: Chain, f: Flight, outs: seq<nat>)
    requires f.adding.Some? && Passed(f) <= |f.items| && f.adding.value <= |Adding(f).adds|
    requires CanEnd(f.(pos := f.pos + 1, adding := None), 0, outs)
    ensures CanEnd(f, 0, outs)
    ensures Landed(chain, f, 0, outs) == Landed(chain, f.(pos := f.pos + 1, adding := None), 0, outs)
  {
    assert AddRules(chain, Adding(f).comment, []).rules == chain.rules;
  }

  lemma EndLands(w: World, a: Action, w': World, id: nat)
    requires Step(w, a, w') && (a == Flush(id) || a == Reject(id))
    ensures CanEnd(w.flights[id], 0, []) && w'.chain == Landed(w.chain, w.flights[id], 0, [])
  {
    var f := w.flights[id];
    assert Rest(f) == [] && f.(ruleMap := f.ruleMap) == f;
  }

  /** A step of the sync before its end. */
  ghost predicate OnTheWay(a: Action, id: nat) {
    a.id == id && (a.Look? || a.AddOne? || a.Next? || a.Fail?)
  }

  lemma StepLands(w: World, a: Action, w': World, id: nat, more': nat, outs': seq<nat>)
    returns (more: nat, outs: seq<nat>)
    requires Step(w, a, w') && OnTheWay(a, id) && Orderly(w)
    requires id in w'.flights && CanEnd(w'.flights[id], more', outs')
    ensures CanEnd(w.flights[id], more, outs)
    ensures Landed(w.chain, w.flights[id], more, outs) == Landed(w'.chain, w'.flights[id], more', outs')
    ensures !a.Fail? && Unfailing(w'.flights[id], more', outs') ==> Unfailing(w.flights[id], more, outs)
  {
    var f := w.flights[id];
    match a
    case Look(_) =>
      more, outs := 0, [LookedDone(f, more')] + outs';
      LookCanEnd(f, more', outs');
      LookLands(w.chain, f, more', outs');
    case AddOne(_) =>
      more, outs := more' + 1, outs';
      AddOneLands(w.chain, f, more', outs');
    case Next(_) =>
      more, outs := 0, outs';
      StopLands(w.chain, f, outs');
    case Fail(_) =>
      more, outs := 0, outs';
      StopLands(w.chain, f, outs');
  }

  /** The step is of the sync, or it leaves the chain alone. */
  ghost predicate AloneAt(w: World, a: Action, w': World, id: nat) {
    if a.id == id then OnTheWay(a, id) else w'.chain == w.chain
  }

  /** From step `i` on, only the sync adds rules, until it ends at step `e`. */
  ghost predicate AloneUntil(ws: seq<World>, acts: seq<Action>, id: nat, i: nat, e: nat)
    requires |ws| > |acts|
  {
    && i <= e < |acts| && id in ws[i].flights && (acts[e] == Flush(id) || acts[e] == Reject(id))
    && forall k {:trigger AloneAt(ws[k], acts[k], ws[k + 1], id)} ::
         i <= k < e ==> AloneAt(ws[k], acts[k], ws[k + 1], id)
  }

  lemma AloneFurther(ws: seq<World>, acts: seq<Action>, id: nat, i: nat, e: nat)
    requires Execution(ws, acts) && AloneUntil(ws, acts, id, i, e) && i < e
    ensures AloneUntil(ws, acts, id, i + 1, e) && Step(ws[i], acts[i], ws[i + 1]) && Orderly(ws[i])
    ensures AloneAt(ws[i], acts[i], ws[i + 1], id)
    ensures acts[i].id != id ==> ws[i + 1].flights[id] == ws[i].flights[id]
  {
    ExecutionIsOrderly(ws, acts, i);
    assert Step(ws[i], acts[i], ws[i + 1]) && AloneAt(ws[i], acts[i], ws[i + 1], id);
  }

  ghost predicate NeverFails(acts: seq<Action>, id: nat, i: nat, e: nat) {
    forall k :: i <= k < e <= |acts| ==> acts[k] != Fail(id)
  }

  /** In an execution, too, the rest of a sync does what it does alone, with the outcomes its commands
      have, if the others leave the chain alone. */
  lemma {:induction false} RestLands(ws: seq<World>, acts: seq<Action>, id: nat, i: nat, e: nat)
    returns (more: nat, outs: seq<nat>)
    requires Execution(ws, acts) && AloneUntil(ws, acts, id, i, e)
    ensures CanEnd(ws[i].flights[id], more, outs)
    ensures ws[e + 1].chain == Landed(ws[i].chain, ws[i].flights[id], more, outs)
    ensures NeverFails(acts, id, i, e) ==> Unfailing(ws[i].flights[id], more, outs)
    decreases e - i
  {
    if i == e {
      more, outs := 0, [];
      assert Step(ws[e], acts[e], ws[e + 1]);
      EndLands(ws[e], acts[e], ws[e + 1], id);
    } else {
      AloneFurther(ws, acts, id, i, e);
      more, outs := RestLands(ws, acts, id, i + 1, e);
      if acts[i].id == id {
        more, outs := StepLands(ws[i], acts[i], ws[i + 1], id, more, outs);
      }
    }
  }

  // ---------------------------------------------------------------- what the rest adds and deletes

  /** Item `i` adds its rules: the map holds none with its comment, unless an earlier item claims it. */
  ghost predicate StillFires(ruleMap: RuleMap, items: seq<Item>, i: int) {
    0 <= i < |items|
    && forall u :: u in ruleMap && Contains(u, items[i].comment) ==> KnownBefore(items, i, u)
  }

  ghost predicate WillWrite(ruleMap: RuleMap, items: seq<Item>, outs: seq<nat>, m: Match)
    requires Outcomes(items, outs)
  {
    exists i :: StillFires(ruleMap, items, i) && m in items[i].adds[..outs[i]]
  }

  /** The part of the map that no item recognises. */
  ghost function Left(ruleMap: RuleMap, items: seq<Item>): RuleMap {
    map u | u in ruleMap && !Wanted(items, u) :: ruleMap[u]
  }

  ghost predicate IsNewRule(before: Chain, after: Chain, r: Rule) {
    r in after.rules && r.handle >= before.nextHandle
  }

  ghost predicate NewRuleFor(before: Chain, after: Chain, m: Match) {
    exists r :: IsNewRule(before, after, r) && r.meaning == m
  }

  /** The chain has grown. */
  ghost predicate Longer(before: Chain, after: Chain) {
    && before.rules <= after.rules && before.nextHandle <= after.nextHandle
    && forall r :: r in after.rules ==> r in before.rules || r.handle >= before.nextHandle
  }

  ghost predicate Below(chain: Chain) {
    forall r :: r in chain.rules ==> r.handle < chain.nextHandle
  }

  lemma AddedRules(chain: Chain, comment: string, adds: seq<Match>, m: Match)
    requires Below(chain)
    ensures Longer(chain, AddRules(chain, comment, adds)) && Below(AddRules(chain, comment, adds))
    ensures NewRuleFor(chain, AddRules(chain, comment, adds), m) <==> m in adds
  {
    var new_ := Numbered(UserData(comment), adds, chain.nextHandle);
    if m in adds {
      var k :| 0 <= k < |adds| && adds[k] == m;
      assert new_[k] in new_;
    }
  }

  lemma NewRulesTwice(a: Chain, b: Chain, c: Chain, m: Match)
    requires Longer(a, b) && Longer(b, c)
    ensures Longer(a, c) && (NewRuleFor(a, c, m) <==> NewRuleFor(a, b, m) || NewRuleFor(b, c, m))
  {
    assert forall r :: r in b.rules ==> r in c.rules;
  }

  lemma LeftStep(ruleMap: RuleMap, items: seq<Item>)
    requires items != []
    ensures var n := |items| - 1; var left := Left(ruleMap, items[..n]);
            var hit := Recognised(left, items[n].comment);
            (hit == {} <==> StillFires(ruleMap, items, n)) && Left(ruleMap, items) == left - hit
  {
    var n := |items| - 1;
    var left := Left(ruleMap, items[..n]);
    PrefixKnows(items);
    assert forall u :: u in left <==> u in ruleMap && !KnownBefore(items, n, u);
    if Recognised(left, items[n].comment) == {} {
      forall u | u in ruleMap && Contains(u, items[n].comment) ensures KnownBefore(items, n, u) {
        assert u !in Recognised(left, items[n].comment);
      }
    } else {
      var u :| u in Recognised(left, items[n].comment);
    }
  }

  lemma StillFiresPrefix(ruleMap: RuleMap, items: seq<Item>, k: nat, i: nat)
    requires i < k <= |items|
    ensures StillFires(ruleMap, items[..k], i) <==> StillFires(ruleMap, items, i)
  {
    forall u {
      KnownBeforePrefix(items, k, i, u);
    }
  }

  lemma WillWriteStep(ruleMap: RuleMap, items: seq<Item>, outs: seq<nat>, m: Match)
    requires Outcomes(items, outs) && items != []
    ensures var n := |items| - 1;
            WillWrite(ruleMap, items, outs, m) <==>
            WillWrite(ruleMap, items[..n], outs[..n], m)
            || (StillFires(ruleMap, items, n) && m in items[n].adds[..outs[n]])
  {
    var n := |items| - 1;
    forall i | 0 <= i < n ensures StillFires(ruleMap, items[..n], i) <==> StillFires(ruleMap, items, i) {
      StillFiresPrefix(ruleMap, items, n, i);
    }
    if i :| StillFires(ruleMap, items, i) && m in items[i].adds[..outs[i]] && i < n {
      assert StillFires(ruleMap, items[..n], i) && m in items[..n][i].adds[..outs[..n][i]];
    }
    if i :| StillFires(ruleMap, items[..n], i) && m in items[..n][i].adds[..outs[..n][i]] {
      assert StillFires(ruleMap, items, i) && m in items[i].adds[..outs[i]];
    }
  }

  /** The enumeration from any map: it leaves what no item recognises and adds the matches of the items
      that fire. */
  lemma {:induction false} RunEffect(s: Sync, items: seq<Item>, outs: seq<nat>, m: Match)
    requires Below(s.chain) && Outcomes(items, outs)
    ensures var t := RunItems(s, items, outs);
            && Longer(s.chain, t.chain) && Below(t.chain) && t.ruleMap == Left(s.ruleMap, items)
            && (NewRuleFor(s.chain, t.chain, m) <==> WillWrite(s.ruleMap, items, outs, m))
  {
    if items != [] {
      var n := |items| - 1;
      var t := RunItems(s, items[..n], outs[..n]);
      RunEffect(s, items[..n], outs[..n], m);
      LeftStep(s.ruleMap, items);
      WillWriteStep(s.ruleMap, items, outs, m);
      AddedRules(t.chain, items[n].comment, items[n].adds[..outs[n]], m);
      if StillFires(s.ruleMap, items, n) {
        NewRulesTwice(s.chain, t.chain, AddRules(t.chain, items[n].comment, items[n].adds[..outs[n]]), m);
      }
    }
  }

  /** A match that the rest of the sync will add. */
  ghost predicate WillAdd(f: Flight, more: nat, outs: seq<nat>, m: Match)
    requires CanEnd(f, more, outs)
  {
    || (f.adding.Some? && m in Adding(f).adds[f.adding.value..f.adding.value + more])
    || WillWrite(f.ruleMap, Rest(f), outs, m)
  }

  /** A rule that the rest of the sync will delete: it remembers it, no item to come recognises it, and
      of all such rules none is gone. */
  ghost predicate WillDelete(chain: Chain, f: Flight, r: Rule)
    requires Passed(f) <= |f.items|
  {
    && r in chain.rules && r in Left(f.ruleMap, Rest(f)).Values
    && forall x :: x in Left(f.ruleMap, Rest(f)).Values ==> x in chain.rules
  }

  lemma EnumeratedEffect(chain: Chain, f: Flight, more: nat, outs: seq<nat>, m: Match)
    requires Below(chain) && CanEnd(f, more, outs)
    ensures var s := Enumerated(chain, f, more, outs);
            && Longer(chain, s.chain) && s.ruleMap == Left(f.ruleMap, Rest(f))
            && (NewRuleFor(chain, s.chain, m) <==> WillAdd(f, more, outs, m))
  {
    if f.adding.Some? {
      AddedRules(chain, Adding(f).comment, Adding(f).adds[f.adding.value..f.adding.value + more], m);
    }
    var c := MoreAdded(chain, f, more, outs);
    RunEffect(Sync(c, f.ruleMap), Rest(f), outs, m);
    NewRulesTwice(chain, c, Enumerated(chain, f, more, outs).chain, m);
  }

  lemma LandedRules(chain: Chain, f: Flight, more: nat, outs: seq<nat>, r: Rule)
    requires WellHandled(chain) && OrderlyFlight(chain, f) && CanEnd(f, more, outs)
    ensures r in Landed(chain, f, more, outs).rules <==>
            (r in chain.rules && !WillDelete(chain, f, r))
            || IsNewRule(chain, Enumerated(chain, f, more, outs).chain, r)
  {
    var s := Enumerated(chain, f, more, outs);
    EnumeratedEffect(chain, f, more, outs, r.meaning);
    forall u | u in s.ruleMap
      ensures s.ruleMap[u] in s.chain.rules <==> s.ruleMap[u] in chain.rules
      ensures r in s.chain.rules && s.ruleMap[u].handle == r.handle ==> s.ruleMap[u] == r
    {
      assert Remembered(chain, u, f.ruleMap[u]);
    }
    if r in s.ruleMap.Values {
      var u :| u in s.ruleMap && s.ruleMap[u] == r;
      assert r.handle in HandlesOf(s.ruleMap);
    }
  }

  // ---------------------------------------------------------------- when it does no harm

  /** The chain accepts exactly what the items want. */
  ghost predicate Means(chain: Chain, items: seq<Item>) {
    forall p :: Accepts(chain, p) <==> ItemsWant(items, p)
  }

  ghost predicate AddsOnlyWanted(f: Flight, more: nat, outs: seq<nat>, items: seq<Item>)
    requires CanEnd(f, more, outs)
  {
    forall m, p :: WillAdd(f, more, outs, m) && Hits(m, p) ==> ItemsWant(items, p)
  }

  /** A rule that stays or one that is still added hits the packet. */
  ghost predicate StaysOpen(chain: Chain, f: Flight, more: nat, outs: seq<nat>, p: Packet)
    requires CanEnd(f, more, outs)
  {
    || (exists r :: r in chain.rules && !WillDelete(chain, f, r) && Hits(r.meaning, p))
    || (exists m :: WillAdd(f, more, outs, m) && Hits(m, p))
  }

  /** Whatever a rule that will be deleted hits, another one hits as well. */
  ghost predicate DeletesOnlySpare(chain: Chain, f: Flight, more: nat, outs: seq<nat>)
    requires CanEnd(f, more, outs)
  {
    forall r, p :: WillDelete(chain, f, r) && Hits(r.meaning, p) ==> StaysOpen(chain, f, more, outs, p)
  }

  lemma LandedAccepts(chain: Chain, f: Flight, more: nat, outs: seq<nat>, p: Packet)
    requires WellHandled(chain) && OrderlyFlight(chain, f) && CanEnd(f, more, outs)
    ensures Accepts(Landed(chain, f, more, outs), p) <==> StaysOpen(chain, f, more, outs, p)
  {
    var s, c := Enumerated(chain, f, more, outs), Landed(chain, f, more, outs);
    forall r {
      LandedRules(chain, f, more, outs, r);
    }
    forall m {
      EnumeratedEffect(chain, f, more, outs, m);
    }
    if r :| r in c.rules && Hits(r.meaning, p) && IsNewRule(chain, s.chain, r) {
      assert NewRuleFor(chain, s.chain, r.meaning);
    }
    if m :| WillAdd(f, more, outs, m) && Hits(m, p) {
      var r :| IsNewRule(chain, s.chain, r) && r.meaning == m;
    }
  }

  /** A chain that accepts exactly what the configuration wants, and what is left of a sync of any other
      configuration, begun at any time, with any outcomes: the accepted packets stay the same if and
      only if every match it still adds hits wanted packets only, and whatever a rule that it deletes
      hits is hit by a rule that stays or is added. */
  lemma LeftOverSyncHarmlessIff(chain: Chain, f: Flight, more: nat, outs: seq<nat>, items: seq<Item>)
    requires WellHandled(chain) && OrderlyFlight(chain, f) && CanEnd(f, more, outs) && Means(chain, items)
    ensures Means(Landed(chain, f, more, outs), items) <==>
            AddsOnlyWanted(f, more, outs, items) && DeletesOnlySpare(chain, f, more, outs)
  {
    forall p ensures Accepts(Landed(chain, f, more, outs), p) <==> StaysOpen(chain, f, more, outs, p) {
      LandedAccepts(chain, f, more, outs, p);
    }
    if Means(Landed(chain, f, more, outs), items) {
      MeansIsHarmless(chain, f, more, outs, items);
    }
    if AddsOnlyWanted(f, more, outs, items) && DeletesOnlySpare(chain, f, more, outs) {
      HarmlessMeans(chain, f, more, outs, items);
    }
  }

  lemma MeansIsHarmless(chain: Chain, f: Flight, more: nat, outs: seq<nat>, items: seq<Item>)
    requires CanEnd(f, more, outs) && Means(chain, items)
    requires forall p :: ItemsWant(items, p) <==> StaysOpen(chain, f, more, outs, p)
    ensures AddsOnlyWanted(f, more, outs, items) && DeletesOnlySpare(chain, f, more, outs)
  {
    forall r, p | WillDelete(chain, f, r) && Hits(r.meaning, p) ensures StaysOpen(chain, f, more, outs, p) {
      assert Accepts(chain, p);
    }
  }

  lemma HarmlessMeans(chain: Chain, f: Flight, more: nat, outs: seq<nat>, items: seq<Item>)
    requires CanEnd(f, more, outs) && Means(chain, items)
    requires AddsOnlyWanted(f, more, outs, items) && DeletesOnlySpare(chain, f, more, outs)
    ensures forall p :: ItemsWant(items, p) <==> StaysOpen(chain, f, more, outs, p)
  {
    forall p ensures ItemsWant(items, p) <==> StaysOpen(chain, f, more, outs, p) {
      assert Accepts(chain, p) <==> ItemsWant(items, p);
    }
  }

  /** The same in an execution with any configurations in flight, when the others leave the chain alone
      until the sync ends. If none of its commands fails, the outcomes are those of success. */
  lemma LeftOverSyncInExecution(ws: seq<World>, acts: seq<Action>, id: nat, i: nat, e: nat, items: seq<Item>)
    returns (more: nat, outs: seq<nat>)
    requires Execution(ws, acts) && AloneUntil(ws, acts, id, i, e) && Means(ws[i].chain, items)
    ensures var f := ws[i].flights[id];
            && CanEnd(f, more, outs) && (NeverFails(acts, id, i, e) ==> Unfailing(f, more, outs))
            && ws[e + 1].chain == Landed(ws[i].chain, f, more, outs)
            && (Means(ws[e + 1].chain, items) <==>
                AddsOnlyWanted(f, more, outs, items) && DeletesOnlySpare(ws[i].chain, f, more, outs))
  {
    ExecutionIsOrderly(ws, acts, i);
    more, outs := RestLands(ws, acts, id, i, e);
    LeftOverSyncHarmlessIff(ws[i].chain, ws[i].flights[id], more, outs, items);
  }
}
