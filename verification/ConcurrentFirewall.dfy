/** Rule syncs running at the same time: two controllers start them without a lock, and each fetches
    its configuration by itself. Every command is a step of its own, so one sync may see another
    one's half-written pair, and both may add the same rule. */
module ConcurrentFirewall {
  import opened Nets
  import opened Comments
  import opened Firewall
  import opened FirewallTheorems
  import opened FirewallRepeats
  import opened FirewallConfig
  import opened FirewallHistory

  /** A sync of `items` at item `pos`, with the part of its map that is left; `adding` counts the rules
      of the item it has added so far, once it knows that it has to add them. */
  datatype Flight = Flight(items: seq<Item>, ruleMap: RuleMap, pos: nat, adding: Option<nat>)

  /** `completed` counts the syncs whose flush was taken. */
  datatype World = World(chain: Chain, flights: map<nat, Flight>, completed: nat)

  datatype Action =
    | Begin(id: nat, items: seq<Item>)
    | Look(id: nat)
    | AddOne(id: nat)
    | Next(id: nat)
    | Fail(id: nat)
    | Flush(id: nat)
    | Reject(id: nat)
    | Abort(id: nat)

  /** The flight after looking for the comment of its item. */
  function Looked(f: Flight): Flight
    requires f.pos < |f.items|
  {
    var hit := Recognised(f.ruleMap, f.items[f.pos].comment);
    if hit == {} then f.(adding := Some(0)) else f.(ruleMap := f.ruleMap - hit, pos := f.pos + 1)
  }

  ghost predicate IsAdding(w: World, id: nat) {
    && id in w.flights && w.flights[id].adding.Some? && w.flights[id].pos < |w.flights[id].items|
    && w.flights[id].adding.value <= |Adding(w.flights[id]).adds|
  }

  ghost predicate IsLooking(w: World, id: nat) {
    id in w.flights && w.flights[id].adding.None?
  }

  ghost predicate IsAtEnd(w: World, id: nat) {
    IsLooking(w, id) && w.flights[id].pos == |w.flights[id].items|
  }

  /** The item a flight is at. */
  function Adding(f: Flight): Item
    requires f.pos < |f.items|
  {
    f.items[f.pos]
  }

  function OneMore(chain: Chain, f: Flight): Chain
    requires f.pos < |f.items| && f.adding.Some? && f.adding.value < |Adding(f).adds|
  {
    AddRules(chain, Adding(f).comment, [Adding(f).adds[f.adding.value]])
  }

  /** The deletions of a flush are one transaction: it is rejected if one of the rules is gone. */
  ghost predicate AllThere(chain: Chain, f: Flight) {
    forall u :: u in f.ruleMap ==> f.ruleMap[u] in chain.rules
  }

  ghost predicate Step(w: World, a: Action, w': World) {
    match a
    case Begin(id, items) =>
      && id !in w.flights
      && w' == w.(flights := w.flights[id := Flight(items, RuleMapOf(w.chain.rules), 0, None)])
    case Look(id) =>
      && IsLooking(w, id) && w.flights[id].pos < |w.flights[id].items|
      && w' == w.(flights := w.flights[id := Looked(w.flights[id])])
    case AddOne(id) =>
      && IsAdding(w, id)
      && var f := w.flights[id];
      && f.adding.value < |Adding(f).adds|
      && w' == w.(chain := OneMore(w.chain, f), flights := w.flights[id := f.(adding := Some(f.adding.value + 1))])
    case Next(id) =>
      && IsAdding(w, id)
      && var f := w.flights[id];
      f.adding.value == |Adding(f).adds| && w' == w.(flights := w.flights[id := f.(pos := f.pos + 1, adding := None)])
    case Fail(id) =>
      && IsAdding(w, id)
      && var f := w.flights[id];
      w' == w.(flights := w.flights[id := f.(pos := f.pos + 1, adding := None)])
    case Flush(id) =>
      && IsAtEnd(w, id) && AllThere(w.chain, w.flights[id])
      && w' == World(Chain(Delete(w.chain.rules, HandlesOf(w.flights[id].ruleMap)), w.chain.nextHandle),
                     w.flights - {id}, w.completed + 1)
    case Reject(id) =>
      && IsAtEnd(w, id) && !AllThere(w.chain, w.flights[id])
      && w' == w.(flights := w.flights - {id})
    case Abort(id) =>
      id in w.flights && w' == w.(flights := w.flights - {id})
  }

  ghost predicate Execution(ws: seq<World>, acts: seq<Action>) {
    && |ws| == |acts| + 1
    && WellHandled(ws[0].chain) && ws[0].flights == map[] && ws[0].completed == 0
    && forall i {:trigger acts[i]} :: 0 <= i < |acts| ==> Step(ws[i], acts[i], ws[i + 1])
  }

  /** All syncs are of the same configuration. */
  ghost predicate OneConfiguration(acts: seq<Action>, items: seq<Item>) {
    forall i :: 0 <= i < |acts| && acts[i].Begin? ==> acts[i].items == items
  }

  ghost predicate OneStep(items: seq<Item>, w: World, a: Action, w': World) {
    Step(w, a, w') && (a.Begin? ==> a.items == items)
  }

  // ---------------------------------------------------------------- what every step keeps

  ghost predicate Wanted(items: seq<Item>, u: string) {
    KnownBefore(items, |items|, u)
  }

  /** A remembered rule: if its handle is still in the chain, it means no other rule. */
  ghost predicate Remembered(chain: Chain, u: string, r: Rule) {
    && r.userData == u && r.handle < chain.nextHandle
    && (forall x :: x in chain.rules && x.handle == r.handle ==> x == r)
  }

  /** The number of items whose comments are no longer in the map of a flight. */
  function Passed(f: Flight): nat {
    if f.adding.Some? then f.pos + 1 else f.pos
  }

  /** Of a sync of any configuration, begun at any time. */
  ghost predicate OrderlyFlight(chain: Chain, f: Flight) {
    && f.pos <= |f.items| && Passed(f) <= |f.items|
    && (forall u :: u in f.ruleMap ==> Remembered(chain, u, f.ruleMap[u]) && !KnownBefore(f.items, Passed(f), u))
  }

  ghost predicate Orderly(w: World) {
    WellHandled(w.chain) && forall id :: id in w.flights ==> OrderlyFlight(w.chain, w.flights[id])
  }

  /** Of a sync of `items`: what it remembers and an item wants is still there. */
  ghost predicate GoodFlight(items: seq<Item>, chain: Chain, f: Flight) {
    && f.items == items && OrderlyFlight(chain, f)
    && (forall u :: u in f.ruleMap && Wanted(items, u) ==> f.ruleMap[u] in chain.rules)
  }

  ghost predicate Safe(items: seq<Item>, w: World) {
    && WellHandled(w.chain)
    && (forall id :: id in w.flights ==> GoodFlight(items, w.chain, w.flights[id]))
    && (w.completed == 0 ==> forall id :: id in w.flights ==> AllThere(w.chain, w.flights[id]))
  }

  lemma BeginIsGood(items: seq<Item>, chain: Chain)
    requires WellHandled(chain)
    ensures GoodFlight(items, chain, Flight(items, RuleMapOf(chain.rules), 0, None))
    ensures AllThere(chain, Flight(items, RuleMapOf(chain.rules), 0, None))
  {
    RuleMapFacts(chain.rules);
    forall u, x | u in RuleMapOf(chain.rules) && x in chain.rules && x.handle == RuleMapOf(chain.rules)[u].handle
      ensures x == RuleMapOf(chain.rules)[u]
    {
      SameHandle(chain.rules, x, RuleMapOf(chain.rules)[u]);
    }
  }

  lemma LookIsOrderly(chain: Chain, f: Flight)
    requires OrderlyFlight(chain, f) && f.adding.None? && f.pos < |f.items|
    ensures OrderlyFlight(chain, Looked(f))
    ensures forall u :: u in Looked(f).ruleMap ==> u in f.ruleMap && Looked(f).ruleMap[u] == f.ruleMap[u]
  {
    var f' := Looked(f);
    forall u | u in f'.ruleMap
      ensures u in f.ruleMap && f'.ruleMap[u] == f.ruleMap[u] && !KnownBefore(f.items, f.pos + 1, u)
    {
      assert u !in Recognised(f.ruleMap, f.items[f.pos].comment);
    }
  }

  /** A rule with a new handle disturbs no memory. */
  lemma AddedIsOrderly(chain: Chain, comment: string, m: Match, f: Flight)
    requires OrderlyFlight(chain, f)
    ensures OrderlyFlight(AddRules(chain, comment, [m]), f)
    ensures forall x :: x in chain.rules ==> x in AddRules(chain, comment, [m]).rules
  {
    var chain' := AddRules(chain, comment, [m]);
    assert forall x :: x in chain'.rules ==> x in chain.rules || x.handle == chain.nextHandle;
  }

  lemma AddedKeepsHandles(chain: Chain, comment: string, m: Match)
    requires WellHandled(chain)
    ensures WellHandled(AddRules(chain, comment, [m]))
  {
    var chain' := AddRules(chain, comment, [m]);
    assert chain'.rules == chain.rules + [Rule(chain.nextHandle, UserData(comment), m)];
    forall k | 0 <= k < |chain.rules| ensures chain'.rules[k].handle < chain.nextHandle {
      assert chain'.rules[k] in chain.rules;
    }
  }

  lemma StepKeepsOrderly(w: World, a: Action, w': World)
    requires Orderly(w) && Step(w, a, w')
    ensures Orderly(w')
  {
    match a
    case Begin(id, items) =>
      BeginIsGood(items, w.chain);
    case Look(id) =>
      LookIsOrderly(w.chain, w.flights[id]);
    case AddOne(id) =>
      var f := w.flights[id];
      AddedKeepsHandles(w.chain, Adding(f).comment, Adding(f).adds[f.adding.value]);
      forall g | g in w'.flights ensures OrderlyFlight(w'.chain, w'.flights[g]) {
        AddedIsOrderly(w.chain, Adding(f).comment, Adding(f).adds[f.adding.value], w.flights[g]);
      }
    case Next(id) =>
    case Fail(id) =>
    case Flush(id) =>
      DeleteKeepsDistinct(w.chain.rules, HandlesOf(w.flights[id].ruleMap));
    case Reject(id) =>
    case Abort(id) =>
  }

  lemma {:induction false} ExecutionIsOrderly(ws: seq<World>, acts: seq<Action>, i: nat)
    requires Execution(ws, acts) && i < |ws|
    ensures Orderly(ws[i])
  {
    if i > 0 {
      ExecutionIsOrderly(ws, acts, i - 1);
      StepKeepsOrderly(ws[i - 1], acts[i - 1], ws[i]);
    }
  }

  /** A flush deletes what its sync remembers, and thus no rule that one of its items wants. */
  lemma FlushDeletesUnwanted(chain: Chain, f: Flight, r: Rule)
    requires OrderlyFlight(chain, f) && Passed(f) == |f.items| && r in chain.rules
    ensures r !in Delete(chain.rules, HandlesOf(f.ruleMap)) <==> r.userData in f.ruleMap && f.ruleMap[r.userData] == r
    ensures Wanted(f.items, r.userData) ==> r in Delete(chain.rules, HandlesOf(f.ruleMap))
  {
    if r.handle in HandlesOf(f.ruleMap) {
      var u :| u in f.ruleMap && f.ruleMap[u].handle == r.handle;
      assert Remembered(chain, u, f.ruleMap[u]);
    }
  }

  /** Wanted rules only become more. */
  ghost predicate Grows(items: seq<Item>, before: Chain, after: Chain) {
    forall r :: r in before.rules && Wanted(items, r.userData) ==> r in after.rules
  }

  /** A step of a sync of any configuration keeps the rules that `items` wants, if a flush is of
      `items`. */
  lemma StepGrows(items: seq<Item>, w: World, a: Action, w': World)
    requires Orderly(w) && Step(w, a, w') && (a.Flush? ==> w.flights[a.id].items == items)
    ensures Grows(items, w.chain, w'.chain)
  {
    if a.Flush? {
      forall r | r in w.chain.rules && Wanted(items, r.userData) ensures r in w'.chain.rules {
        FlushDeletesUnwanted(w.chain, w.flights[a.id], r);
      }
    }
  }

  lemma StepKeepsSafe(items: seq<Item>, w: World, a: Action, w': World)
    requires Safe(items, w) && OneStep(items, w, a, w')
    ensures Safe(items, w') && Grows(items, w.chain, w'.chain)
  {
    StepKeepsOrderly(w, a, w');
    StepGrows(items, w, a, w');
    forall g | g in w'.flights ensures GoodFlight(items, w'.chain, w'.flights[g]) {
      if a == Begin(g, items) {
        BeginIsGood(items, w.chain);
      } else if a == Look(g) {
        LookIsOrderly(w.chain, w.flights[g]);
      }
    }
    if w'.completed == 0 {
      forall g | g in w'.flights ensures AllThere(w'.chain, w'.flights[g]) {
        if a == Begin(g, items) {
          BeginIsGood(items, w.chain);
        } else if a == Look(g) {
          LookIsOrderly(w.chain, w.flights[g]);
        }
      }
    }
  }

  // ---------------------------------------------------------------- stale rules

  /** The sync knows a rule with every user data that no item wants and that is still there. */
  ghost predicate KnowsStale(items: seq<Item>, chain: Chain, f: Flight) {
    forall u :: !Wanted(items, u) && Count(chain.rules, u) > 0 ==> u in f.ruleMap
  }

  /** With `n` as the largest stale multiplicity at first: every completed sync has taken one rule
      per stale user data, and every sync in flight will take another one. */
  ghost predicate StaleDrains(items: seq<Item>, w: World, n: nat) {
    && (forall u :: !Wanted(items, u) ==> Count(w.chain.rules, u) <= Minus(n, w.completed))
    && (forall id :: id in w.flights ==> KnowsStale(items, w.chain, w.flights[id]))
  }

  lemma ItemIsWanted(items: seq<Item>, i: nat)
    requires i < |items|
    ensures Wanted(items, UserData(items[i].comment))
  {
    OwnComment(items[i].comment);
  }

  /** The one rule with user data `u` that a flush deletes. */
  lemma FlushTakesOne(items: seq<Item>, chain: Chain, f: Flight, u: string)
    requires WellHandled(chain) && GoodFlight(items, chain, f) && Passed(f) == |items| && AllThere(chain, f)
    requires KnowsStale(items, chain, f) && !Wanted(items, u)
    ensures Count(Delete(chain.rules, HandlesOf(f.ruleMap)), u) == Minus(Count(chain.rules, u), 1)
  {
    var victim := if u in f.ruleMap then Some(f.ruleMap[u]) else None;
    forall r ensures r in chain.rules && r.userData == u && r.handle in HandlesOf(f.ruleMap) <==> victim == Some(r) {
      if r in chain.rules {
        FlushDeletesUnwanted(chain, f, r);
      }
      if victim == Some(r) {
        assert Remembered(chain, u, r);
      }
    }
    CountDelete(chain.rules, HandlesOf(f.ruleMap), u, victim);
    assert victim.Some? ==> Count(chain.rules, u) > 0;
  }

  lemma FlushDrains(items: seq<Item>, chain: Chain, f: Flight, n: nat, completed: nat)
    requires WellHandled(chain) && GoodFlight(items, chain, f) && Passed(f) == |items| && AllThere(chain, f)
    requires KnowsStale(items, chain, f)
    requires forall u :: !Wanted(items, u) ==> Count(chain.rules, u) <= Minus(n, completed)
    ensures forall u :: !Wanted(items, u) ==>
              Count(Delete(chain.rules, HandlesOf(f.ruleMap)), u) <= Minus(n, completed + 1)
  {
    forall u | !Wanted(items, u)
      ensures Count(Delete(chain.rules, HandlesOf(f.ruleMap)), u) <= Minus(n, completed + 1)
    {
      FlushTakesOne(items, chain, f, u);
    }
  }

  lemma FlushIsKnown(items: seq<Item>, chain: Chain, f: Flight, g: Flight)
    requires WellHandled(chain) && GoodFlight(items, chain, f) && Passed(f) == |items| && AllThere(chain, f)
    requires KnowsStale(items, chain, f) && KnowsStale(items, chain, g)
    ensures KnowsStale(items, Chain(Delete(chain.rules, HandlesOf(f.ruleMap)), chain.nextHandle), g)
  {
    forall u | !Wanted(items, u) && Count(Delete(chain.rules, HandlesOf(f.ruleMap)), u) > 0 ensures u in g.ruleMap {
      FlushTakesOne(items, chain, f, u);
    }
  }

  lemma BeginKnowsStale(items: seq<Item>, chain: Chain)
    ensures KnowsStale(items, chain, Flight(items, RuleMapOf(chain.rules), 0, None))
  {
    RuleMapFacts(chain.rules);
  }

  lemma LookKnowsStale(items: seq<Item>, chain: Chain, f: Flight)
    requires KnowsStale(items, chain, f) && f.items == items && f.pos < |items|
    ensures KnowsStale(items, chain, Looked(f))
  {
    forall u | u in Recognised(f.ruleMap, items[f.pos].comment) ensures Wanted(items, u) {
      assert Contains(u, items[f.pos].comment);
    }
  }

  lemma AddOneIsNotStale(items: seq<Item>, chain: Chain, i: nat, m: Match, u: string)
    requires i < |items| && !Wanted(items, u)
    ensures Count(AddRules(chain, items[i].comment, [m]).rules, u) == Count(chain.rules, u)
  {
    ItemIsWanted(items, i);
    CountMore(chain.rules, UserData(items[i].comment), [m], chain.nextHandle, u);
  }

  lemma StepDrains(items: seq<Item>, w: World, a: Action, w': World, n: nat)
    requires Safe(items, w) && StaleDrains(items, w, n) && OneStep(items, w, a, w')
    ensures StaleDrains(items, w', n)
  {
    match a
    case Begin(id, _) =>
      BeginKnowsStale(items, w.chain);
    case Look(id) =>
      LookKnowsStale(items, w.chain, w.flights[id]);
    case AddOne(id) =>
      var f := w.flights[id];
      forall u | !Wanted(items, u) {
        AddOneIsNotStale(items, w.chain, f.pos, items[f.pos].adds[f.adding.value], u);
      }
    case Next(id) =>
    case Fail(id) =>
    case Flush(id) =>
      FlushDrains(items, w.chain, w.flights[id], n, w.completed);
      forall g | g in w'.flights ensures KnowsStale(items, w'.chain, w'.flights[g]) {
        FlushIsKnown(items, w.chain, w.flights[id], w.flights[g]);
      }
    case Reject(id) =>
    case Abort(id) =>
  }

  // ---------------------------------------------------------------- nothing is left half-written

  ghost predicate HasAny(chain: Chain, it: Item) {
    exists r :: r in chain.rules && r.userData == UserData(it.comment)
  }

  ghost predicate AddedSoFar(chain: Chain, it: Item, n: nat) {
    n <= |it.adds| && forall m :: m in it.adds[..n] ==> HasRule(chain, it, m)
  }

  /** The items a flight has passed have rules, and so far as it has got with its current one. */
  ghost predicate Thorough(items: seq<Item>, chain: Chain, f: Flight) {
    && f.items == items && f.pos <= |items|
    && (forall i :: 0 <= i < f.pos && items[i].adds != [] ==> HasAny(chain, items[i]))
    && (f.adding.Some? ==> f.pos < |items| && AddedSoFar(chain, items[f.pos], f.adding.value))
  }

  ghost predicate BeingAdded(w: World, i: int) {
    exists id :: id in w.flights && w.flights[id].pos == i && w.flights[id].adding.Some?
  }

  /** An item has all its rules, or none, or some sync is still adding them. */
  ghost predicate NotAbandoned(items: seq<Item>, w: World, i: int)
    requires 0 <= i < |items|
  {
    Whole(w.chain, items[i]) || !HasAny(w.chain, items[i]) || BeingAdded(w, i)
  }

  ghost predicate Live(items: seq<Item>, w: World) {
    && Known(w.chain, items)
    && (forall id :: id in w.flights ==> Thorough(items, w.chain, w.flights[id]))
    && (forall i :: 0 <= i < |items| ==> NotAbandoned(items, w, i))
    && (w.completed > 0 ==> forall i :: 0 <= i < |items| && items[i].adds != [] ==> HasAny(w.chain, items[i]))
  }

  lemma GrowingKeepsItem(items: seq<Item>, before: Chain, after: Chain, i: nat)
    requires Grows(items, before, after) && i < |items|
    ensures HasAny(before, items[i]) ==> HasAny(after, items[i])
    ensures forall m :: HasRule(before, items[i], m) ==> HasRule(after, items[i], m)
    ensures Whole(before, items[i]) ==> Whole(after, items[i])
  {
    ItemIsWanted(items, i);
  }

  lemma GrowingKeepsThorough(items: seq<Item>, before: Chain, after: Chain, f: Flight)
    requires Grows(items, before, after) && Thorough(items, before, f)
    ensures Thorough(items, after, f)
  {
    forall i | 0 <= i < |items| {
      GrowingKeepsItem(items, before, after, i);
    }
  }

  /** A sync that finds its item's comment leaves an item that has rules. */
  lemma LookIsThorough(items: seq<Item>, w: World, id: nat)
    requires Safe(items, w) && Known(w.chain, items) && IsLooking(w, id) && w.flights[id].pos < |items|
    requires Thorough(items, w.chain, w.flights[id])
    ensures Thorough(items, w.chain, Looked(w.flights[id]))
  {
    var f := w.flights[id];
    var hit := Recognised(f.ruleMap, items[f.pos].comment);
    if hit != {} {
      var u :| u in hit;
      assert Wanted(items, u) && Remembered(w.chain, u, f.ruleMap[u]);
      assert FromItem(f.ruleMap[u], items[f.pos]);
    }
  }

  lemma AddOneIsThorough(items: seq<Item>, chain: Chain, f: Flight)
    requires Thorough(items, chain, f) && f.adding.Some? && f.adding.value < |items[f.pos].adds|
    ensures var chain' := AddRules(chain, items[f.pos].comment, [items[f.pos].adds[f.adding.value]]);
            Grows(items, chain, chain') && Thorough(items, chain', f.(adding := Some(f.adding.value + 1)))
  {
    var it, n := items[f.pos], f.adding.value;
    var chain' := AddRules(chain, it.comment, [it.adds[n]]);
    var new_ := Rule(chain.nextHandle, UserData(it.comment), it.adds[n]);
    assert chain'.rules == chain.rules + [new_];
    GrowingKeepsThorough(items, chain, chain', f);
    assert new_ in chain'.rules;
    assert it.adds[..n + 1] == it.adds[..n] + [it.adds[n]];
  }

  /** Rules of other items are not affected by adding one. */
  lemma AddOneElsewhere(items: seq<Item>, chain: Chain, i: nat, m: Match, j: nat)
    requires Unambiguous(items) && i < |items| && j < |items| && i != j
    ensures HasAny(AddRules(chain, items[i].comment, [m]), items[j]) ==> HasAny(chain, items[j])
  {
    UnambiguousIsDistinct(items);
    var new_ := Rule(chain.nextHandle, UserData(items[i].comment), m);
    assert AddRules(chain, items[i].comment, [m]).rules == chain.rules + [new_];
    assert UserData(items[i].comment) != UserData(items[j].comment);
  }

  lemma AllAddedIsWhole(items: seq<Item>, chain: Chain, f: Flight)
    requires Thorough(items, chain, f) && f.adding.Some? && f.adding.value == |items[f.pos].adds|
    ensures Whole(chain, items[f.pos])
  {
    assert items[f.pos].adds[..f.adding.value] == items[f.pos].adds;
  }

  lemma NotAbandonedAfter(items: seq<Item>, w: World, a: Action, w': World, i: nat)
    requires Unambiguous(items) && Safe(items, w) && Live(items, w)
    requires OneStep(items, w, a, w') && !a.Fail? && !a.Abort?
    requires Grows(items, w.chain, w'.chain) && i < |items|
    ensures NotAbandoned(items, w', i)
  {
    assert NotAbandoned(items, w, i);
    GrowingKeepsItem(items, w.chain, w'.chain, i);
    if BeingAdded(w, i) {
      var id :| id in w.flights && w.flights[id].pos == i && w.flights[id].adding.Some?;
      if a == Next(id) {
        AllAddedIsWhole(items, w.chain, w.flights[id]);
      } else {
        assert id in w'.flights && w'.flights[id].pos == i && w'.flights[id].adding.Some?;
      }
    } else if a.AddOne? && w.flights[a.id].pos != i {
      var f := w.flights[a.id];
      AddOneElsewhere(items, w.chain, f.pos, items[f.pos].adds[f.adding.value], i);
    }
  }

  lemma StepKeepsThorough(items: seq<Item>, w: World, a: Action, w': World)
    requires Unambiguous(items) && Safe(items, w) && Live(items, w)
    requires OneStep(items, w, a, w') && !a.Fail? && !a.Abort?
    requires Grows(items, w.chain, w'.chain)
    ensures forall id :: id in w'.flights ==> Thorough(items, w'.chain, w'.flights[id])
  {
    forall id | id in w'.flights ensures Thorough(items, w'.chain, w'.flights[id]) {
      if id in w.flights {
        var f := w.flights[id];
        GrowingKeepsThorough(items, w.chain, w'.chain, f);
        if a == Look(id) {
          LookIsThorough(items, w, id);
        } else if a == AddOne(id) {
          AddOneIsThorough(items, w.chain, f);
        } else if a == Next(id) && items[f.pos].adds != [] {
          assert items[f.pos].adds[0] in items[f.pos].adds[..f.adding.value];
        }
      }
    }
  }

  lemma StepKeepsKnown(items: seq<Item>, w: World, a: Action, w': World)
    requires Unambiguous(items) && Safe(items, w) && Known(w.chain, items) && OneStep(items, w, a, w')
    ensures Known(w'.chain, items)
  {
    if a.AddOne? {
      var it, n := items[w.flights[a.id].pos], w.flights[a.id].adding.value;
      var new_ := Rule(w.chain.nextHandle, UserData(it.comment), it.adds[n]);
      assert w'.chain.rules == w.chain.rules + [new_];
      forall j | 0 <= j < |items| && Contains(new_.userData, items[j].comment) ensures FromItem(new_, items[j]) {
        assert j == w.flights[a.id].pos;
      }
    }
  }

  lemma StepKeepsLive(items: seq<Item>, w: World, a: Action, w': World)
    requires Unambiguous(items) && Safe(items, w) && Live(items, w)
    requires OneStep(items, w, a, w') && !a.Fail? && !a.Abort?
    ensures Live(items, w')
  {
    StepKeepsSafe(items, w, a, w');
    StepKeepsThorough(items, w, a, w');
    StepKeepsKnown(items, w, a, w');
    forall i | 0 <= i < |items| ensures NotAbandoned(items, w', i) {
      NotAbandonedAfter(items, w, a, w', i);
    }
    if w'.completed > 0 {
      forall i | 0 <= i < |items| && items[i].adds != [] ensures HasAny(w'.chain, items[i]) {
        assert HasAny(w.chain, items[i]) by {
          if a.Flush? {
            assert Thorough(items, w.chain, w.flights[a.id]);
          }
        }
        GrowingKeepsItem(items, w.chain, w'.chain, i);
      }
    }
  }

  // ---------------------------------------------------------------- every execution

  lemma {:induction false} ExecutionIsSafe(items: seq<Item>, ws: seq<World>, acts: seq<Action>, i: nat)
    requires Execution(ws, acts) && OneConfiguration(acts, items) && i < |ws|
    ensures Safe(items, ws[i])
  {
    if i > 0 {
      ExecutionIsSafe(items, ws, acts, i - 1);
      StepKeepsSafe(items, ws[i - 1], acts[i - 1], ws[i]);
    }
  }

  /** Over every execution, with any comments, failures included: each completed sync has taken one
      rule of each stale user data. */
  lemma {:induction false} ExecutionDrains(items: seq<Item>, ws: seq<World>, acts: seq<Action>, i: nat, n: nat)
    requires Execution(ws, acts) && OneConfiguration(acts, items)
    requires StaleAtMost(ws[0].chain, items, n) && i < |ws|
    ensures StaleDrains(items, ws[i], n)
  {
    if i > 0 {
      ExecutionDrains(items, ws, acts, i - 1, n);
      ExecutionIsSafe(items, ws, acts, i - 1);
      StepDrains(items, ws[i - 1], acts[i - 1], ws[i], n);
    }
  }

  /** The first sync that gets to its flush completes: a flush is rejected only if another sync has
      deleted rules before. */
  lemma RejectedAfterCompletion(items: seq<Item>, ws: seq<World>, acts: seq<Action>, i: nat)
    requires Execution(ws, acts) && OneConfiguration(acts, items) && i < |acts| && acts[i].Reject?
    ensures ws[i].completed > 0
  {
    ExecutionIsSafe(items, ws, acts, i);
    assert Step(ws[i], acts[i], ws[i + 1]);
  }

  ghost predicate NoFailures(acts: seq<Action>) {
    forall i :: 0 <= i < |acts| ==> !acts[i].Fail? && !acts[i].Abort?
  }

  lemma StaysLiveAt(items: seq<Item>, ws: seq<World>, acts: seq<Action>, i: nat)
    requires Execution(ws, acts) && OneConfiguration(acts, items) && NoFailures(acts) && i < |acts|
    requires Unambiguous(items)
    ensures Live(items, ws[i]) ==> Live(items, ws[i + 1])
  {
    ExecutionIsSafe(items, ws, acts, i);
    if Live(items, ws[i]) {
      StepKeepsLive(items, ws[i], acts[i], ws[i + 1]);
    }
  }

  lemma {:induction false} ExecutionIsLive(items: seq<Item>, ws: seq<World>, acts: seq<Action>, i: nat)
    requires Execution(ws, acts) && OneConfiguration(acts, items) && NoFailures(acts) && i < |ws|
    requires Unambiguous(items) && Known(ws[0].chain, items)
    requires forall j :: 0 <= j < |items| ==> AllOrNothing(ws[0].chain, items[j])
    ensures Live(items, ws[i])
  {
    if i == 0 {
      forall j | 0 <= j < |items| ensures NotAbandoned(items, ws[0], j) {
        assert AllOrNothing(ws[0].chain, items[j]);
      }
    } else {
      ExecutionIsLive(items, ws, acts, i - 1);
      StaysLiveAt(items, ws, acts, i - 1);
    }
  }

  lemma GrowsAt(items: seq<Item>, ws: seq<World>, acts: seq<Action>, i: nat)
    requires Execution(ws, acts) && OneConfiguration(acts, items) && i < |acts|
    ensures Grows(items, ws[i].chain, ws[i + 1].chain)
  {
    ExecutionIsSafe(items, ws, acts, i);
    StepKeepsSafe(items, ws[i], acts[i], ws[i + 1]);
  }

  lemma GrowsTwice(items: seq<Item>, a: Chain, b: Chain, c: Chain)
    requires Grows(items, a, b) && Grows(items, b, c)
    ensures Grows(items, a, c)
  {
  }

  /** No interruption: with any comments, whatever syncs of the configuration run, fail or are cut
      short, a rule that the configuration recognises is never deleted. */
  lemma {:induction false} WantedRulesStay(items: seq<Item>, ws: seq<World>, acts: seq<Action>, i: nat, j: nat)
    requires Execution(ws, acts) && OneConfiguration(acts, items) && i <= j < |ws|
    ensures Grows(items, ws[i].chain, ws[j].chain)
    decreases j - i
  {
    if i < j {
      WantedRulesStay(items, ws, acts, i, j - 1);
      GrowsAt(items, ws, acts, j - 1);
      GrowsTwice(items, ws[i].chain, ws[j - 1].chain, ws[j].chain);
    }
  }

  lemma StepAddsOwn(items: seq<Item>, w: World, a: Action, w': World)
    requires Safe(items, w) && OneStep(items, w, a, w')
    ensures NothingStrange(w.chain, w'.chain, items)
  {
    if a.AddOne? {
      var f := w.flights[a.id];
      var new_ := Rule(w.chain.nextHandle, UserData(items[f.pos].comment), items[f.pos].adds[f.adding.value]);
      assert w'.chain.rules == w.chain.rules + [new_];
      assert FromItem(new_, items[f.pos]);
    }
  }

  lemma {:induction false} NothingIsStrange(items: seq<Item>, ws: seq<World>, acts: seq<Action>, i: nat)
    requires Execution(ws, acts) && OneConfiguration(acts, items) && i < |ws|
    ensures NothingStrange(ws[0].chain, ws[i].chain, items)
  {
    if i > 0 {
      NothingIsStrange(items, ws, acts, i - 1);
      ExecutionIsSafe(items, ws, acts, i - 1);
      StepAddsOwn(items, ws[i - 1], acts[i - 1], ws[i]);
    }
  }

  /** Safety, with any chain, any comments, any interleaving and any failures: once as many syncs have
      completed as the largest stale multiplicity at first, only permitted packets are accepted if and
      only if no rule that the configuration recognised at first was an intruder. */
  lemma InterleavedSyncsAreSafeIff(env: Parsers, show: Show, config: Config, ws: seq<World>, acts: seq<Action>,
                                   i: nat, n: nat)
    requires Execution(ws, acts) && OneConfiguration(acts, ConfigItems(env, show, config)) && i < |ws|
    requires StaleAtMost(ws[0].chain, ConfigItems(env, show, config), n) && ws[i].completed >= n
    ensures OnlyPermitted(env, config, ws[i].chain) <==> NoIntruder(env, show, config, ws[0].chain)
  {
    var items := ConfigItems(env, show, config);
    ExecutionDrains(items, ws, acts, i, n);
    NothingIsStrange(items, ws, acts, i);
    WantedRulesStay(items, ws, acts, 0, i);
    NothingUnwantedIff(ws[0].chain, ws[i].chain, items);
    NoIntruderIsNoImpostor(env, show, config, ws[0].chain);
    OnlyPermittedIsNothingUnwanted(env, show, config, ws[i].chain);
  }

  /** Meaning: if moreover no command fails, no pair was half-written at first, the comments are
      prefix-free and the recognised rules the configuration's own, then whenever enough syncs have
      completed and none is in flight, exactly the permitted packets are accepted. */
  lemma InterleavedRuleSyncs(env: Parsers, show: Show, config: Config, ws: seq<World>, acts: seq<Action>,
                             i: nat, n: nat, p: Packet)
    requires TextsPrint(show, config) && PrefixFree(ConfigItems(env, show, config))
    requires Execution(ws, acts) && OneConfiguration(acts, ConfigItems(env, show, config)) && i < |ws|
    requires Known(ws[0].chain, ConfigItems(env, show, config))
    requires StaleAtMost(ws[0].chain, ConfigItems(env, show, config), n) && ws[i].completed >= n
    ensures Accepts(ws[i].chain, p) ==> ConfigPermits(env, config, p)
    ensures var items := ConfigItems(env, show, config);
            ws[i].completed > 0 && ws[i].flights == map[] && NoFailures(acts)
            && (forall j :: 0 <= j < |items| ==> AllOrNothing(ws[0].chain, items[j])) ==>
              (Accepts(ws[i].chain, p) <==> ConfigPermits(env, config, p))
  {
    var items := ConfigItems(env, show, config);
    KnownIsNoImpostor(ws[0].chain, items);
    NoIntruderIsNoImpostor(env, show, config, ws[0].chain);
    InterleavedSyncsAreSafeIff(env, show, config, ws, acts, i, n);
    assert OnlyPermitted(env, config, ws[i].chain);
    if ws[i].completed > 0 && ws[i].flights == map[] && NoFailures(acts)
       && forall j :: 0 <= j < |items| ==> AllOrNothing(ws[0].chain, items[j]) {
      ConfigItemsWritable(env, show, config);
      PrefixFreeIsUnambiguous(items);
      ExecutionIsLive(items, ws, acts, i);
      forall j | 0 <= j < |items| ensures Whole(ws[i].chain, items[j]) {
        assert NotAbandoned(items, ws[i], j);
      }
      WholeAccepts(ws[i].chain, items, p);
      ItemsWantIffPermitted(env, show, config, p);
    }
  }
}
