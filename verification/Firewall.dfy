/** The ingress chain of the operator and one rule sync (`nftSync`) over it, as functions. The
    chain is a list of rules with handles; user data may repeat and may come from elsewhere. */
module Firewall {
  import opened Nets
  import opened Comments

  datatype Proto = UDP | TCP | Other

  datatype Packet = Packet(src: Addr, dst: Addr, proto: Proto, dport: nat)

  /** What the three rule builders match on; every rule accepts. */
  datatype Match =
    | Route(source: Net, target: Net)
    | Dns(source: Net, server: Addr)
    | Http(source: Net, server: Addr)

  predicate Hits(m: Match, p: Packet) {
    match m
    case Route(source, target) => InNet(p.src, source) && InNet(p.dst, target)
    case Dns(source, server) => InNet(p.src, source) && p.dst == server && p.proto == UDP && p.dport == 53
    case Http(source, server) =>
      InNet(p.src, source) && p.dst == server && p.proto == TCP && (p.dport == 80 || p.dport == 443)
  }

  datatype Rule = Rule(handle: nat, userData: string, meaning: Match)

  datatype Chain = Chain(rules: seq<Rule>, nextHandle: nat)

  /** The chain's policy is drop, and all its rules accept. */
  ghost predicate Accepts(chain: Chain, p: Packet) {
    exists r :: r in chain.rules && Hits(r.meaning, p)
  }

  /** One step of the enumeration: look for `comment`, and add `adds` if nothing carries it. */
  datatype Item = Item(comment: string, adds: seq<Match>)

  type RuleMap = map<string, Rule>

  /** Only the last rule with given user data is remembered. */
  function RuleMapOf(rules: seq<Rule>): RuleMap {
    if rules == [] then map[]
    else
      var last := rules[|rules| - 1];
      RuleMapOf(rules[..|rules| - 1])[last.userData := last]
  }

  /** Rules for the given matches, with consecutive handles and one user data. */
  function Numbered(userData: string, adds: seq<Match>, next: nat): (r: seq<Rule>)
    ensures |r| == |adds|
    ensures forall i :: 0 <= i < |r| ==> r[i] == Rule(next + i, userData, adds[i])
  {
    seq(|adds|, i requires 0 <= i < |adds| => Rule(next + i, userData, adds[i]))
  }

  function AddRules(chain: Chain, comment: string, adds: seq<Match>): Chain {
    Chain(chain.rules + Numbered(UserData(comment), adds, chain.nextHandle), chain.nextHandle + |adds|)
  }

  datatype Sync = Sync(chain: Chain, ruleMap: RuleMap)

  function Recognised(ruleMap: RuleMap, comment: string): set<string> {
    set u | u in ruleMap && Contains(u, comment)
  }

  /** `done` of the commands of the item succeed before the first failure. */
  function ItemStep(s: Sync, it: Item, done: nat): Sync
    requires done <= |it.adds|
  {
    var hit := Recognised(s.ruleMap, it.comment);
    Sync(if hit == {} then AddRules(s.chain, it.comment, it.adds[..done]) else s.chain, s.ruleMap - hit)
  }

  predicate Outcomes(items: seq<Item>, done: seq<nat>) {
    |done| == |items| && forall i :: 0 <= i < |items| ==> done[i] <= |items[i].adds|
  }

  function RunItems(s: Sync, items: seq<Item>, done: seq<nat>): Sync
    requires Outcomes(items, done)
  {
    if items == [] then s
    else
      var n := |items| - 1;
      ItemStep(RunItems(s, items[..n], done[..n]), items[n], done[n])
  }

  function Delete(rules: seq<Rule>, handles: set<nat>): (r: seq<Rule>)
    ensures forall x :: x in r <==> x in rules && x.handle !in handles
  {
    if rules == [] then []
    else
      var init, last := rules[..|rules| - 1], rules[|rules| - 1];
      assert rules == init + [last];
      if last.handle in handles then Delete(init, handles) else Delete(init, handles) + [last]
  }

  function HandlesOf(ruleMap: RuleMap): set<nat> {
    set u | u in ruleMap :: ruleMap[u].handle
  }

  /** The whole sync: enumerate, then delete what the map still holds. */
  function SyncChain(chain: Chain, items: seq<Item>, done: seq<nat>): Chain
    requires Outcomes(items, done)
  {
    var s := RunItems(Sync(chain, RuleMapOf(chain.rules)), items, done);
    Chain(Delete(s.chain.rules, HandlesOf(s.ruleMap)), s.chain.nextHandle)
  }

  /** The outcomes of a sync in which every command succeeds. */
  function AllDone(items: seq<Item>): (done: seq<nat>)
    ensures Outcomes(items, done)
  {
    seq(|items|, i requires 0 <= i < |items| => |items[i].adds|)
  }

  ghost predicate DistinctHandles(rules: seq<Rule>) {
    forall i, j :: 0 <= i < j < |rules| ==> rules[i].handle != rules[j].handle
  }

  ghost predicate WellHandled(chain: Chain) {
    && DistinctHandles(chain.rules)
    && (forall r :: r in chain.rules ==> r.handle < chain.nextHandle)
  }

  // ---------------------------------------------------------------- what the enumeration does

  ghost predicate KnownBefore(items: seq<Item>, n: int, u: string) {
    exists j :: 0 <= j < n <= |items| && Contains(u, items[j].comment)
  }

  /** Item `i` adds its rules: no rule of the chain carries its comment, unless an earlier item
      already claimed that rule. */
  ghost predicate Fires(rules: seq<Rule>, items: seq<Item>, i: int) {
    0 <= i < |items|
    && forall r :: r in rules && Contains(r.userData, items[i].comment) ==> KnownBefore(items, i, r.userData)
  }

  lemma {:induction false} RuleMapFacts(rules: seq<Rule>)
    ensures forall r :: r in rules ==> r.userData in RuleMapOf(rules)
    ensures forall u :: u in RuleMapOf(rules) ==> RuleMapOf(rules)[u] in rules && RuleMapOf(rules)[u].userData == u
  {
    if rules != [] {
      var init, last := rules[..|rules| - 1], rules[|rules| - 1];
      assert rules == init + [last];
      RuleMapFacts(init);
    }
  }

  /** Of several rules with the same user data the last one is remembered. */
  lemma {:induction false} LastRuleIsRemembered(rules: seq<Rule>, i: nat)
    requires i < |rules| && forall j :: i < j < |rules| ==> rules[j].userData != rules[i].userData
    ensures rules[i].userData in RuleMapOf(rules) && RuleMapOf(rules)[rules[i].userData] == rules[i]
  {
    if i < |rules| - 1 {
      LastRuleIsRemembered(rules[..|rules| - 1], i);
    }
  }

  /** The rules a sync adds, in order. */
  ghost function Added(rules: seq<Rule>, items: seq<Item>, done: seq<nat>, next: nat): seq<Rule>
    requires Outcomes(items, done)
  {
    if items == [] then []
    else
      var n := |items| - 1;
      var before := Added(rules, items[..n], done[..n], next);
      if Fires(rules, items, n)
      then before + Numbered(UserData(items[n].comment), items[n].adds[..done[n]], next + |before|)
      else before
  }

  /** With no assumption on chain or comments: after the enumeration the map holds exactly the
      user data no item recognises, and the chain has gained the rules of the items that fire. */
  lemma {:induction false} RunItemsEffect(chain: Chain, items: seq<Item>, done: seq<nat>)
    requires Outcomes(items, done)
    ensures RunItems(Sync(chain, RuleMapOf(chain.rules)), items, done) == Enumerated(chain, items, done)
  {
    if items == [] {
      assert chain.rules + [] == chain.rules;
      assert Unclaimed(chain.rules, []) == RuleMapOf(chain.rules);
    } else {
      RunItemsEffect(chain, items[..|items| - 1], done[..|items| - 1]);
      EnumeratedStep(chain, items, done);
    }
  }

  ghost function Enumerated(chain: Chain, items: seq<Item>, done: seq<nat>): Sync
    requires Outcomes(items, done)
  {
    var added := Added(chain.rules, items, done, chain.nextHandle);
    Sync(Chain(chain.rules + added, chain.nextHandle + |added|), Unclaimed(chain.rules, items))
  }

  lemma EnumeratedStep(chain: Chain, items: seq<Item>, done: seq<nat>)
    requires Outcomes(items, done) && items != []
    ensures var n := |items| - 1;
            ItemStep(Enumerated(chain, items[..n], done[..n]), items[n], done[n]) == Enumerated(chain, items, done)
  {
    var n := |items| - 1;
    UnclaimedStep(chain.rules, items);
    var before := Added(chain.rules, items[..n], done[..n], chain.nextHandle);
    if Fires(chain.rules, items, n) {
      var more := Numbered(UserData(items[n].comment), items[n].adds[..done[n]], chain.nextHandle + |before|);
      assert (chain.rules + before) + more == chain.rules + (before + more);
    }
  }

  /** The part of the map that no item recognises. */
  ghost function Unclaimed(rules: seq<Rule>, items: seq<Item>): (r: RuleMap) {
    map u | u in RuleMapOf(rules) && !KnownBefore(items, |items|, u) :: RuleMapOf(rules)[u]
  }

  lemma UnclaimedStep(rules: seq<Rule>, items: seq<Item>)
    requires items != []
    ensures var n := |items| - 1; var left := Unclaimed(rules, items[..n]);
            var hit := Recognised(left, items[n].comment);
            (hit == {} <==> Fires(rules, items, n)) && Unclaimed(rules, items) == left - hit
  {
    PrefixKnows(items);
    HitUnlessFires(rules, items, Unclaimed(rules, items[..|items| - 1]));
  }

  lemma HitUnlessFires(rules: seq<Rule>, items: seq<Item>, left: RuleMap)
    requires items != []
    requires forall u :: u in left <==> u in RuleMapOf(rules) && !KnownBefore(items, |items| - 1, u)
    ensures Recognised(left, items[|items| - 1].comment) == {} <==> Fires(rules, items, |items| - 1)
  {
    var n := |items| - 1;
    var hit := Recognised(left, items[n].comment);
    RuleMapFacts(rules);
    if hit == {} {
      forall r | r in rules && Contains(r.userData, items[n].comment) ensures KnownBefore(items, n, r.userData) {
        assert r.userData !in hit;
      }
    } else {
      var u :| u in hit;
      assert RuleMapOf(rules)[u] in rules;
    }
  }

  lemma PrefixKnows(items: seq<Item>)
    requires items != []
    ensures var n := |items| - 1;
            forall u :: (KnownBefore(items[..n], n, u) <==> KnownBefore(items, n, u))
                        && (KnownBefore(items, n + 1, u) <==> KnownBefore(items, n, u) || Contains(u, items[n].comment))
  {
    var n := |items| - 1;
    assert forall j :: 0 <= j < n ==> items[..n][j] == items[j];
    forall u ensures KnownBefore(items[..n], n, u) <==> KnownBefore(items, n, u) {
      if KnownBefore(items, n, u) {
        var j :| 0 <= j < n && Contains(u, items[j].comment);
        assert Contains(u, items[..n][j].comment);
      }
    }
  }

  // ---------------------------------------------------------------- counting by user data

  ghost function Count(rules: seq<Rule>, u: string): (r: nat)
    ensures r > 0 <==> exists x :: x in rules && x.userData == u
  {
    if rules == [] then 0
    else
      var init, last := rules[..|rules| - 1], rules[|rules| - 1];
      assert rules == init + [last];
      Count(init, u) + if last.userData == u then 1 else 0
  }

  lemma {:induction false} CountConcat(a: seq<Rule>, b: seq<Rule>, u: string)
    ensures Count(a + b, u) == Count(a, u) + Count(b, u)
  {
    if b == [] {
      assert a + b == a;
    } else {
      assert (a + b)[..|a + b| - 1] == a + b[..|b| - 1];
      CountConcat(a, b[..|b| - 1], u);
    }
  }

  lemma {:induction false} CountNumbered(userData: string, adds: seq<Match>, next: nat, u: string)
    ensures Count(Numbered(userData, adds, next), u) == if u == userData then |adds| else 0
  {
    if adds != [] {
      var n := |adds| - 1;
      assert Numbered(userData, adds, next)[..n] == Numbered(userData, adds[..n], next);
      CountNumbered(userData, adds[..n], next, u);
    }
  }

  /** Deleting handles of which exactly one belongs to a rule with user data `u`. */
  lemma {:induction false} CountDelete(rules: seq<Rule>, handles: set<nat>, u: string, victim: Option<Rule>)
    requires DistinctHandles(rules)
    requires forall r :: r in rules && r.userData == u && r.handle in handles <==> victim == Some(r)
    ensures Count(Delete(rules, handles), u) == Count(rules, u) - if victim.Some? then 1 else 0
  {
    if rules != [] {
      var init, last := rules[..|rules| - 1], rules[|rules| - 1];
      assert rules == init + [last];
      forall r | r in init ensures r.handle != last.handle {
        var i :| 0 <= i < |init| && init[i] == r;
        assert rules[i] == r && rules[|init|] == last;
      }
      assert DistinctHandles(init) by {
        assert forall i :: 0 <= i < |init| ==> init[i] == rules[i];
      }
      if victim == Some(last) {
        CountDelete(init, handles, u, None);
      } else {
        CountDelete(init, handles, u, victim);
      }
    }
  }

  /** The effect of one sync on the number of rules per user data, with no assumption on the
      comments: a recognised user data keeps its rules, an unrecognised one loses exactly one,
      and the rules of the items that fire come on top. */
  lemma SyncCounts(chain: Chain, items: seq<Item>, done: seq<nat>, u: string)
    requires WellHandled(chain) && Outcomes(items, done)
    ensures Count(SyncChain(chain, items, done).rules, u) ==
            Count(chain.rules, u) + Count(Added(chain.rules, items, done, chain.nextHandle), u)
            - (if Count(chain.rules, u) > 0 && !KnownBefore(items, |items|, u) then 1 else 0)
  {
    var s := RunItems(Sync(chain, RuleMapOf(chain.rules)), items, done);
    RunItemsEffect(chain, items, done);
    RuleMapFacts(chain.rules);
    EnumeratedHandles(chain, items, done);
    CountConcat(chain.rules, Added(chain.rules, items, done, chain.nextHandle), u);
    var victim := Victim(chain, s.ruleMap, u);
    CountDelete(s.chain.rules, HandlesOf(s.ruleMap), u, victim);
  }

  /** The rule with user data `u` that the final loop deletes. */
  lemma Victim(chain: Chain, left: RuleMap, u: string) returns (victim: Option<Rule>)
    requires WellHandled(chain)
    requires forall v :: v in left ==> v in RuleMapOf(chain.rules) && left[v] == RuleMapOf(chain.rules)[v]
    ensures victim == if u in left then Some(left[u]) else None
    ensures forall rules, r :: DistinctHandles(rules) && chain.rules <= rules && r in rules ==>
              (r.userData == u && r.handle in HandlesOf(left) <==> victim == Some(r))
    ensures victim.Some? ==> victim.value in chain.rules
  {
    RuleMapFacts(chain.rules);
    victim := if u in left then Some(left[u]) else None;
    forall rules, r | DistinctHandles(rules) && chain.rules <= rules && r in rules
      ensures r.userData == u && r.handle in HandlesOf(left) <==> victim == Some(r)
    {
      if r.handle in HandlesOf(left) {
        var v :| v in left && left[v].handle == r.handle;
        SameHandle(rules, left[v], r);
      }
    }
  }

  lemma SameHandle(rules: seq<Rule>, a: Rule, b: Rule)
    requires DistinctHandles(rules) && a in rules && b in rules && a.handle == b.handle
    ensures a == b
  {
    var i :| 0 <= i < |rules| && rules[i] == a;
    var j :| 0 <= j < |rules| && rules[j] == b;
    assert !(i < j) && !(j < i);
  }

  ghost predicate Consecutive(rules: seq<Rule>, next: nat) {
    forall i :: 0 <= i < |rules| ==> rules[i].handle == next + i
  }

  lemma {:induction false} AddedHandles(rules: seq<Rule>, items: seq<Item>, done: seq<nat>, next: nat)
    requires Outcomes(items, done)
    ensures Consecutive(Added(rules, items, done, next), next)
  {
    if items != [] {
      var n := |items| - 1;
      var before := Added(rules, items[..n], done[..n], next);
      AddedHandles(rules, items[..n], done[..n], next);
      ConsecutiveConcat(before, Numbered(UserData(items[n].comment), items[n].adds[..done[n]], next + |before|), next);
    }
  }

  lemma ConsecutiveConcat(a: seq<Rule>, b: seq<Rule>, next: nat)
    requires Consecutive(a, next) && Consecutive(b, next + |a|)
    ensures Consecutive(a + b, next)
  {
  }

  lemma EnumeratedHandles(chain: Chain, items: seq<Item>, done: seq<nat>)
    requires WellHandled(chain) && Outcomes(items, done)
    ensures WellHandled(RunItems(Sync(chain, RuleMapOf(chain.rules)), items, done).chain)
  {
    var added := Added(chain.rules, items, done, chain.nextHandle);
    RunItemsEffect(chain, items, done);
    AddedHandles(chain.rules, items, done, chain.nextHandle);
    assert forall i :: 0 <= i < |chain.rules| ==> chain.rules[i] in chain.rules;
  }

  lemma SyncKeepsHandles(chain: Chain, items: seq<Item>, done: seq<nat>)
    requires WellHandled(chain) && Outcomes(items, done)
    ensures WellHandled(SyncChain(chain, items, done))
  {
    var s := RunItems(Sync(chain, RuleMapOf(chain.rules)), items, done);
    EnumeratedHandles(chain, items, done);
    DeleteKeepsDistinct(s.chain.rules, HandlesOf(s.ruleMap));
  }

  lemma {:induction false} DeleteKeepsDistinct(rules: seq<Rule>, handles: set<nat>)
    requires DistinctHandles(rules)
    ensures DistinctHandles(Delete(rules, handles))
  {
    if rules != [] {
      var init, last := rules[..|rules| - 1], rules[|rules| - 1];
      DeleteKeepsDistinct(init, handles);
      forall i | 0 <= i < |Delete(init, handles)| ensures Delete(init, handles)[i].handle != last.handle {
        assert Delete(init, handles)[i] in init;
      }
    }
  }
}
