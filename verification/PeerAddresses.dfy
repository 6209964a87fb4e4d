/** Address assignment (`PeerReconciler.Reconcile`) as a step over the API server, and what holds
    over whole runs: addresses never collide and never change. */
module PeerAddresses {
  import opened Nets
  import opened AddressIndex

  /** A stored object with its resource version. */
  datatype Stored = Stored(version: nat, status: Option<PeerStatus>)

  /** One call: the clock, the two random choices, and whether the API server takes each of the
      (at most two) updates, their versions permitting. */
  datatype Call = Call(now: int, pick: nat, draw: int, takesMigration: bool, takesStatus: bool)

  datatype Outcome =
    | Skipped
    | Failed
    | Panicked
    | Assigned(addr: Addr)

  datatype Settings = Settings(clientNets: seq<Net>, dns: seq<string>, show: Addr -> string)

  function HostBits(n: Net): nat {
    if n.ones <= Bits(n.ip.family) then Bits(n.ip.family) - n.ones else 0
  }

  /** `cidr.HostBig`: the network address plus the index, if the host part has room for it; a negative
      index counts from the end of the network. */
  function HostBig(n: Net, index: int): Option<Addr> {
    var size: int := Pow2(HostBits(n));
    if -size <= index < size
    then Some(Addr(n.ip.family, n.ip.value + if index < 0 then size + index else index))
    else None
  }

  function V6Nets(nets: seq<Net>): (r: seq<Net>)
    ensures forall n :: n in r <==> n in nets && n.ip.family.V6?
  {
    if nets == [] then []
    else
      var init, last := nets[..|nets| - 1], nets[|nets| - 1];
      assert nets == init + [last];
      V6Nets(init) + if last.ip.family.V6? then [last] else []
  }

  /** The draw is within the bound the random source was given for the picked network. */
  ghost predicate Drawn(cfg: Settings, call: Call) {
    var nets := V6Nets(cfg.clientNets);
    nets != [] && HostBits(nets[call.pick % |nets|]) < 128 ==>
      0 <= call.draw < RandBound(HostBits(nets[call.pick % |nets|]))
  }

  /** The address a call generates: `Err` stands for a panic, `Ok(None)` for an error. */
  function Generate(cfg: Settings, call: Call): Result<Option<Addr>, ()> {
    var nets := V6Nets(cfg.clientNets);
    if nets == [] then Err(())
    else
      var n := nets[call.pick % |nets|];
      if HostBits(n) >= 128 then Err(())
      else Ok(HostBig(n, Index(call.now, HostBits(n), call.draw)))
  }

  /** An update is taken only at the version it was read at. */
  function Update(cur: Stored, version: nat, status: PeerStatus, accepts: bool): Option<Stored> {
    if accepts && cur.version == version then Some(Stored(version + 1, Some(status))) else None
  }

  predicate HasAddresses(s: Stored) {
    s.status.Some? && s.status.value.addresses != []
  }

  predicate IsLegacy(s: Stored) {
    s.status.Some? && s.status.value.address != "" && s.status.value.addresses == []
  }

  /** One reconcile of a cached, possibly outdated copy `seen` of the stored object `cur`. */
  function Reconcile(cfg: Settings, seen: Stored, cur: Stored, call: Call): (Stored, Outcome) {
    if HasAddresses(seen) then (cur, Skipped)
    else
      var migrated := if IsLegacy(seen)
        then Update(cur, seen.version, seen.status.value.(addresses := [seen.status.value.address]),
                    call.takesMigration)
        else Some(cur);
      if migrated.None? then (cur, Failed)
      else
        var version := if IsLegacy(seen) then seen.version + 1 else seen.version;
        match Generate(cfg, call)
        case Err(_) => (migrated.value, Panicked)
        case Ok(None) => (migrated.value, Failed)
        case Ok(Some(a)) =>
          var text := cfg.show(a);
          match Update(migrated.value, version, PeerStatus(text, [text], cfg.dns), call.takesStatus)
          case None => (migrated.value, Failed)
          case Some(stored) => (stored, Assigned(a))
  }

  // ---------------------------------------------------------------- the reconciler itself

  class PeerObject {
    var stored: Stored

    constructor (s: Stored)
      ensures stored == s
    {
      stored := s;
    }

    method Put(version: nat, status: PeerStatus, accepts: bool) returns (ok: bool)
      modifies this
      ensures ok == Update(old(stored), version, status, accepts).Some?
      ensures stored == if ok then Stored(version + 1, Some(status)) else old(stored)
    {
      ok := accepts && stored.version == version;
      if ok {
        stored := Stored(version + 1, Some(status));
      }
    }
  }

  method SplitV6(nets: seq<Net>) returns (clientNetsV6: seq<Net>)
    ensures clientNetsV6 == V6Nets(nets)
  {
    clientNetsV6 := [];
    for i := 0 to |nets|
      invariant clientNetsV6 == V6Nets(nets[..i])
    {
      assert nets[..i + 1][..i] == nets[..i];
      if nets[i].ip.family.V6? {
        clientNetsV6 := clientNetsV6 + [nets[i]];
      }
    }
    assert nets[..|nets|] == nets;
  }

  /** The addresses list of the reconciler has one element or none; with none, taking its first
      element panics. */
  method PickAddress(cfg: Settings, call: Call) returns (addr: Result<Option<Addr>, ()>)
    requires Drawn(cfg, call)
    ensures addr == Generate(cfg, call)
  {
    var clientNetsV6 := SplitV6(cfg.clientNets);
    if |clientNetsV6| == 0 {
      return Err(());
    }
    var cnet := clientNetsV6[call.pick % |clientNetsV6|];
    assert cnet in clientNetsV6;
    var index := GenerateIndex(call.now, HostBits(cnet), call.draw);
    if index.Err? {
      return Err(());
    }
    return Ok(HostBig(cnet, index.value));
  }

  method ReconcilePeer(cfg: Settings, seen: Stored, obj: PeerObject, call: Call) returns (outcome: Outcome)
    requires Drawn(cfg, call)
    modifies obj
    ensures (obj.stored, outcome) == Reconcile(cfg, seen, old(obj.stored), call)
  {
    if seen.status.Some? && |seen.status.value.addresses| != 0 {
      return Skipped;
    }
    var version := seen.version;
    if seen.status.Some? && seen.status.value.address != "" {
      var status := seen.status.value.(addresses := [seen.status.value.address]);
      var ok := obj.Put(version, status, call.takesMigration);
      if !ok {
        return Failed;
      }
      version := version + 1;
    }
    var addr := PickAddress(cfg, call);
    if addr.Err? {
      return Panicked;
    }
    if addr.value.None? {
      return Failed;
    }
    var text := cfg.show(addr.value.value);
    var ok := obj.Put(version, PeerStatus(text, [text], cfg.dns), call.takesStatus);
    return if ok then Assigned(addr.value.value) else Failed;
  }

  /** What a reconcile of a peer without addresses comes to if the API server takes its updates: it
      panics without an IPv6 client network or with one that leaves 128 host bits, and otherwise assigns
      the address whose offset in the picked network is the index. */
  lemma FreshOutcome(cfg: Settings, cur: Stored, call: Call)
    requires cur.status.Some? ==> cur.status.value.addresses == []
    requires call.takesMigration && call.takesStatus && call.now >= 0 && Drawn(cfg, call)
    ensures var (nets, outcome) := (V6Nets(cfg.clientNets), Reconcile(cfg, cur, cur, call).1);
            if nets == [] || nets[call.pick % |nets|].ones == 0 then outcome.Panicked?
            else
              var n := nets[call.pick % |nets|];
              n.ones <= 128 ==>
                outcome == Assigned(Addr(V6, n.ip.value + Index(call.now, 128 - n.ones, call.draw)))
  {
    var nets := V6Nets(cfg.clientNets);
    if nets != [] {
      var n := nets[call.pick % |nets|];
      assert n in nets;
      if HostBits(n) < 128 {
        RandBoundIs(HostBits(n));
        IndexBound(call.now, HostBits(n), call.draw);
      }
    }
  }

  /** Every IPv6 client network can be picked. */
  lemma AnyNetCanBePicked(cfg: Settings, n: Net) returns (pick: nat)
    requires n in cfg.clientNets && n.ip.family.V6?
    ensures var nets := V6Nets(cfg.clientNets); nets != [] && nets[pick % |nets|] == n
  {
    var nets := V6Nets(cfg.clientNets);
    assert n in nets;
    pick :| 0 <= pick < |nets| && nets[pick] == n;
    RemainderUnique(pick, |nets|, 0, pick);
  }

  /** The migrated legacy address does not survive: it is kept only when the migration is stored
      and the reconcile then fails to store a new address. */
  lemma LegacyAddressFate(cfg: Settings, cur: Stored, call: Call)
    requires cur.status.Some? && cur.status.value.address != "" && cur.status.value.addresses == []
    ensures var (s, outcome) := Reconcile(cfg, cur, cur, call);
            && (outcome.Assigned? ==> s.status.value.addresses == [cfg.show(outcome.addr)])
            && (s.status == Some(cur.status.value.(addresses := [cur.status.value.address])) && !outcome.Assigned?
                <==> call.takesMigration
                     && !(Generate(cfg, call).Ok? && Generate(cfg, call).value.Some? && call.takesStatus))
            && (!call.takesMigration ==> s == cur)
  {
    var (s, outcome) := Reconcile(cfg, cur, cur, call);
    assert !outcome.Assigned? && !call.takesMigration ==> s.status.value.addresses == [];
  }

  // ---------------------------------------------------------------- runs over one cluster

  /** The API server's objects, the reconciler's cache, the next resource version, and the log of
      every address ever stored, with the clock reading of the call that assigned it. */
  datatype Cluster = Cluster(
    objects: map<string, Stored>,
    cache: map<string, Stored>,
    nextVersion: nat,
    log: seq<Entry>)

  datatype Entry = Entry(name: string, addr: Addr, now: int)

  datatype Event =
    | Create(name: string, status: Option<PeerStatus>)
    | EditSpec(name: string)
    | Delete(name: string)
    | Refresh(name: string)
    | Run(name: string, call: Call)

  ghost predicate Step(cfg: Settings, c: Cluster, e: Event, c': Cluster) {
    match e
    case Create(name, status) =>
      && name !in c.objects
      && c' == c.(objects := c.objects[name := Stored(c.nextVersion, status)], nextVersion := c.nextVersion + 1)
    case EditSpec(name) =>
      && name in c.objects
      && c' == c.(objects := c.objects[name := Stored(c.nextVersion, c.objects[name].status)],
                  nextVersion := c.nextVersion + 1)
    case Delete(name) =>
      && name in c.objects && c' == c.(objects := c.objects - {name})
    case Refresh(name) =>
      c' == c.(cache := if name in c.objects then c.cache[name := c.objects[name]] else c.cache - {name})
    case Run(name, call) =>
      && name in c.cache
      && if name !in c.objects then c' == c
         else
           var (s, outcome) := Reconcile(cfg, c.cache[name], c.objects[name], call);
           c' == c.(
             objects := c.objects[name := s],
             nextVersion := if s.version >= c.nextVersion then s.version + 1 else c.nextVersion,
             log := if outcome.Assigned? then c.log + [Entry(name, outcome.addr, call.now)] else c.log)
  }

  ghost predicate Execution(cfg: Settings, cs: seq<Cluster>, es: seq<Event>) {
    && |cs| == |es| + 1
    && cs[0] == Cluster(map[], map[], 0, [])
    && forall i :: 0 <= i < |es| ==> Step(cfg, cs[i], es[i], cs[i + 1])
  }

  // ---------------------------------------------------------------- addresses never collide

  /** The client networks the design assumes: as value ranges they are pairwise disjoint, and
      each leaves room for the time. */
  ghost predicate RoomyNets(cfg: Settings) {
    && (forall n :: n in cfg.clientNets && n.ip.family.V6? ==> 80 <= HostBits(n) < 128)
    && (forall m, n, a :: m in cfg.clientNets && n in cfg.clientNets && InRange(a, m) && InRange(a, n) ==> m == n)
  }

  ghost predicate InRange(a: Addr, n: Net) {
    a.family == n.ip.family && n.ip.value <= a.value < n.ip.value + Pow2(HostBits(n))
  }

  /** The draws the random source makes, and clock readings from 1970 on that fit `int64`. */
  ghost predicate Sane(cfg: Settings, es: seq<Event>) {
    forall i :: 0 <= i < |es| && es[i].Run? ==> 0 <= es[i].call.now < HALF && Drawn(cfg, es[i].call)
  }

  /** The clock readings of the calls that assigned an address are pairwise 2 ns apart, in whatever
      order they come. */
  ghost predicate Apart(log: seq<Entry>) {
    forall i, j :: 0 <= i < j < |log| ==> log[i].now + 2 <= log[j].now || log[j].now + 2 <= log[i].now
  }

  /** What is known of a logged address: its network, and that it was generated at its time. */
  ghost predicate GeneratedAt(cfg: Settings, e: Entry, n: Net) {
    && n in cfg.clientNets && n.ip.family.V6? && InRange(e.addr, n) && 0 <= e.now < HALF
    && exists r :: Draw(HostBits(n), r) && e.addr.value == n.ip.value + Index(e.now, HostBits(n), r)
  }

  ghost predicate Generated(cfg: Settings, e: Entry) {
    exists n :: GeneratedAt(cfg, e, n)
  }

  ghost predicate InClientNet(cfg: Settings, a: Addr) {
    exists n :: n in cfg.clientNets && n.ip.family.V6? && InRange(a, n)
  }

  lemma AssignedIsGenerated(cfg: Settings, seen: Stored, cur: Stored, call: Call, name: string) returns (n: Net)
    requires RoomyNets(cfg) && 0 <= call.now < HALF && Drawn(cfg, call)
    requires Reconcile(cfg, seen, cur, call).1.Assigned?
    ensures GeneratedAt(cfg, Entry(name, Reconcile(cfg, seen, cur, call).1.addr, call.now), n)
  {
    var nets := V6Nets(cfg.clientNets);
    n := nets[call.pick % |nets|];
    assert n in nets;
    RandBoundIs(HostBits(n));
    assert Draw(HostBits(n), call.draw);
    IndexBound(call.now, HostBits(n), call.draw);
  }

  lemma LaterAddressDiffers(cfg: Settings, a: Entry, b: Entry)
    requires RoomyNets(cfg)
    ensures Generated(cfg, a) && Generated(cfg, b) && a.now + 2 <= b.now ==> a.addr != b.addr
  {
    if Generated(cfg, a) && Generated(cfg, b) && a.now + 2 <= b.now {
      var m :| GeneratedAt(cfg, a, m);
      var n :| GeneratedAt(cfg, b, n);
      if m == n {
        var r1 :| Draw(HostBits(m), r1) && a.addr.value == m.ip.value + Index(a.now, HostBits(m), r1);
        var r2 :| Draw(HostBits(m), r2) && b.addr.value == m.ip.value + Index(b.now, HostBits(m), r2);
        IndexGrows(a.now, b.now, HostBits(m), r1, r2);
      }
    }
  }

  ghost predicate AllGenerated(cfg: Settings, log: seq<Entry>) {
    forall i :: 0 <= i < |log| ==> Generated(cfg, log[i])
  }

  lemma {:induction false} LogIsGenerated(cfg: Settings, cs: seq<Cluster>, es: seq<Event>, i: nat)
    requires Execution(cfg, cs, es) && RoomyNets(cfg) && Sane(cfg, es) && i < |cs|
    ensures AllGenerated(cfg, cs[i].log)
  {
    if i > 0 {
      LogIsGenerated(cfg, cs, es, i - 1);
      var c, e := cs[i - 1], es[i - 1];
      assert Step(cfg, c, e, cs[i]);
      if e.Run? && e.name in c.objects && Reconcile(cfg, c.cache[e.name], c.objects[e.name], e.call).1.Assigned? {
        var n := AssignedIsGenerated(cfg, c.cache[e.name], c.objects[e.name], e.call, e.name);
      }
    }
  }

  /** Over every run, with no conflict check anywhere: if the assigning calls read the clock at least
      2 ns apart, all addresses ever assigned are pairwise distinct. Each lies in one of the client
      networks, whatever the clock. */
  lemma AddressesNeverCollide(cfg: Settings, cs: seq<Cluster>, es: seq<Event>, k: nat)
    requires Execution(cfg, cs, es) && RoomyNets(cfg) && Sane(cfg, es) && k < |cs|
    ensures Apart(cs[k].log) ==> forall i, j :: 0 <= i < j < |cs[k].log| ==> cs[k].log[i].addr != cs[k].log[j].addr
    ensures forall i :: 0 <= i < |cs[k].log| ==> InClientNet(cfg, cs[k].log[i].addr)
  {
    LogIsGenerated(cfg, cs, es, k);
    var log := cs[k].log;
    if Apart(log) {
      forall i, j | 0 <= i < j < |log| ensures log[i].addr != log[j].addr {
        LaterAddressDiffers(cfg, log[i], log[j]);
        LaterAddressDiffers(cfg, log[j], log[i]);
      }
    }
    forall i | 0 <= i < |log| ensures InClientNet(cfg, log[i].addr) {
      assert Generated(cfg, log[i]);
      var n :| GeneratedAt(cfg, log[i], n);
    }
  }

  // ---------------------------------------------------------------- what is stored

  /** The whole status that goes with an assigned address. */
  ghost predicate StatusOf(cfg: Settings, status: Option<PeerStatus>, addr: Addr) {
    status == Some(PeerStatus(cfg.show(addr), [cfg.show(addr)], cfg.dns))
  }

  /** Step `i` assigns an address. */
  ghost predicate AssignsAt(cs: seq<Cluster>, i: nat)
    requires i + 1 < |cs|
  {
    |cs[i + 1].log| > |cs[i].log|
  }

  /** Over every run: what a reconcile stores is what is logged. A step that assigns an address appends
      it to the log and leaves it in the status, with the DNS servers; and a status that a reconcile
      changes is either such a one, or that of a legacy peer with its single address moved to the list. */
  lemma StoredIsLogged(cfg: Settings, cs: seq<Cluster>, es: seq<Event>, i: nat)
    requires Execution(cfg, cs, es) && i < |es|
    ensures AssignsAt(cs, i) ==>
              es[i].Run? && es[i].name in cs[i + 1].objects
              && exists addr :: cs[i + 1].log == cs[i].log + [Entry(es[i].name, addr, es[i].call.now)]
                                && StatusOf(cfg, cs[i + 1].objects[es[i].name].status, addr)
    ensures !AssignsAt(cs, i) ==> cs[i + 1].log == cs[i].log
    ensures !AssignsAt(cs, i) && es[i].Run? && es[i].name in cs[i].objects ==>
              var before, after := cs[i].objects[es[i].name], cs[i + 1].objects[es[i].name];
              after == before
              || (before.status.Some? && before.status.value.addresses == []
                  && after.status == Some(before.status.value.(addresses := [before.status.value.address])))
  {
    RunsStayCoherent(cfg, cs, es, i);
    assert Step(cfg, cs[i], es[i], cs[i + 1]);
    if AssignsAt(cs, i) {
      var e := es[i];
      var (s, outcome) := Reconcile(cfg, cs[i].cache[e.name], cs[i].objects[e.name], e.call);
      assert StatusOf(cfg, s.status, outcome.addr);
    }
  }

  lemma {:induction false} LogGrows(cfg: Settings, cs: seq<Cluster>, es: seq<Event>, i: nat, j: nat)
    requires Execution(cfg, cs, es) && i <= j < |cs|
    ensures cs[i].log <= cs[j].log
    decreases j - i
  {
    if i < j {
      LogGrows(cfg, cs, es, i, j - 1);
      StoredIsLogged(cfg, cs, es, j - 1);
    }
  }

  ghost predicate Injective(cfg: Settings) {
    forall a, b :: cfg.show(a) == cfg.show(b) ==> a == b
  }

  /** The one address that a peer has stored, as a text. */
  ghost predicate HasStored(cfg: Settings, c: Cluster, name: string, addr: Addr) {
    name in c.objects && c.objects[name].status.Some? && c.objects[name].status.value.addresses == [cfg.show(addr)]
  }

  /** Over every run: what any two assignments store differs, as texts, and both are addresses of client
      networks. */
  lemma StoredAddressesDiffer(cfg: Settings, cs: seq<Cluster>, es: seq<Event>, i: nat, j: nat)
    requires Execution(cfg, cs, es) && RoomyNets(cfg) && Sane(cfg, es) && Injective(cfg)
    requires i < j < |es|
    ensures AssignsAt(cs, i) && AssignsAt(cs, j) && Apart(cs[j + 1].log) ==>
              es[i].Run? && es[j].Run?
              && exists a, b :: InClientNet(cfg, a) && InClientNet(cfg, b) && cfg.show(a) != cfg.show(b)
                   && HasStored(cfg, cs[i + 1], es[i].name, a) && HasStored(cfg, cs[j + 1], es[j].name, b)
  {
    if AssignsAt(cs, i) && AssignsAt(cs, j) && Apart(cs[j + 1].log) {
      StoredDiffer(cfg, cs, es, i, j);
    }
  }

  lemma StoredDiffer(cfg: Settings, cs: seq<Cluster>, es: seq<Event>, i: nat, j: nat)
    requires Execution(cfg, cs, es) && RoomyNets(cfg) && Sane(cfg, es) && Injective(cfg)
    requires i < j < |es| && AssignsAt(cs, i) && AssignsAt(cs, j) && Apart(cs[j + 1].log)
    ensures es[i].Run? && es[j].Run?
    ensures exists a, b :: InClientNet(cfg, a) && InClientNet(cfg, b) && cfg.show(a) != cfg.show(b)
              && HasStored(cfg, cs[i + 1], es[i].name, a) && HasStored(cfg, cs[j + 1], es[j].name, b)
  {
    StoredIsLogged(cfg, cs, es, i);
    StoredIsLogged(cfg, cs, es, j);
    LogGrows(cfg, cs, es, i + 1, j);
    AddressesNeverCollide(cfg, cs, es, j + 1);
    var log, m, n := cs[j + 1].log, |cs[i].log|, |cs[j].log|;
    assert cs[i + 1].log[m] == log[m] && m < n;
    assert HasStored(cfg, cs[i + 1], es[i].name, log[m].addr);
    assert HasStored(cfg, cs[j + 1], es[j].name, log[n].addr);
    assert log[m].addr != log[n].addr;
  }

  // ---------------------------------------------------------------- addresses never change

  /** The cache never knows more than the server: equal versions mean equal objects. */
  ghost predicate Coherent(c: Cluster) {
    && (forall name :: name in c.objects ==> c.objects[name].version < c.nextVersion)
    && (forall name :: name in c.cache ==> c.cache[name].version < c.nextVersion)
    && (forall name :: name in c.cache && name in c.objects && c.cache[name].version == c.objects[name].version
                       ==> c.cache[name] == c.objects[name])
  }

  lemma {:induction false} RunsStayCoherent(cfg: Settings, cs: seq<Cluster>, es: seq<Event>, i: nat)
    requires Execution(cfg, cs, es) && i < |cs|
    ensures Coherent(cs[i])
  {
    if i > 0 {
      RunsStayCoherent(cfg, cs, es, i - 1);
      assert Step(cfg, cs[i - 1], es[i - 1], cs[i]);
    }
  }

  ghost predicate Tidy(s: PeerStatus) {
    s.addresses == [s.address]
  }

  /** Over every run, with stale caches, concurrent edits and failing updates: once a stored peer has
      addresses, no reconcile changes its status; and a status with addresses that a reconcile stores
      has its deprecated single address equal to the first of them. */
  lemma AddressesAreStable(cfg: Settings, cs: seq<Cluster>, es: seq<Event>, i: nat, name: string)
    requires Execution(cfg, cs, es) && i < |es| && es[i].Run? && name in cs[i].objects
    ensures name in cs[i + 1].objects
    ensures cs[i].objects[name].status.Some? && cs[i].objects[name].status.value.addresses != [] ==>
              cs[i + 1].objects[name] == cs[i].objects[name]
    ensures cs[i + 1].objects[name] != cs[i].objects[name] ==>
              cs[i + 1].objects[name].status.Some? && Tidy(cs[i + 1].objects[name].status.value)
  {
    RunsStayCoherent(cfg, cs, es, i);
    assert Step(cfg, cs[i], es[i], cs[i + 1]);
  }
}
