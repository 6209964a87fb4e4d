/** Assignment of service IPs (`LoadBalancerClassReconciler.Reconcile`) with its conflict check,
    and what holds over every run of the cluster. */
module LoadBalancer {
  import opened Nets
  import opened AddressIndex
  import PeerAddresses

  const CLASS := "wga.kraudcloud.com/intranet"
  const LOAD_BALANCER := "LoadBalancer"

  datatype Port = Port(protocol: string, port: nat)

  datatype Ingress = Ingress(ip: string, ports: seq<Port>)

  datatype Reason = InvalidLoadBalancerIP | LoadBalancerReady

  /** `annotation` is the requested list of IPs, empty when the annotation is missing. */
  datatype Service = Service(
    uid: nat,
    class_: Option<string>,
    kind: string,
    annotation: string,
    ports: seq<Port>,
    ingress: seq<Ingress>,
    conditions: seq<Reason>)

  /** `parse` reads an IP after trimming white space; `show` prints one. */
  datatype Settings = Settings(serviceNets: seq<Net>, parse: string -> Option<Addr>, show: Addr -> string)

  datatype Outcome = AlreadyAssigned | Panicked | Terminal | Retry | Rejected | Assigned

  predicate IsLoadBalancerClass(s: Service) {
    s.class_ == Some(CLASS) && s.kind == LOAD_BALANCER
  }

  // ---------------------------------------------------------------- the requested IPs

  /** `strings.Split(s, ",")`. */
  function Split(s: string): (parts: seq<string>)
    ensures |parts| > 0
    ensures forall i :: 0 <= i < |parts| ==> ',' !in parts[i]
  {
    if s == [] then [""]
    else
      var before, last := Split(s[..|s| - 1]), s[|s| - 1];
      if last == ',' then before + [""]
      else before[..|before| - 1] + [before[|before| - 1] + [last]]
  }

  function Join(parts: seq<string>): string {
    if |parts| == 0 then ""
    else if |parts| == 1 then parts[0]
    else Join(parts[..|parts| - 1]) + "," + parts[|parts| - 1]
  }

  lemma JoinSnoc(parts: seq<string>, last: string)
    requires |parts| > 0
    ensures Join(parts + [last]) == Join(parts) + "," + last
  {
    assert (parts + [last])[..|parts|] == parts;
  }

  lemma JoinExtend(init: seq<string>, last: string, c: char)
    ensures Join(init + [last + [c]]) == Join(init + [last]) + [c]
  {
    if init == [] {
      assert [] + [last] == [last] && [] + [last + [c]] == [last + [c]];
    } else {
      JoinSnoc(init, last);
      JoinSnoc(init, last + [c]);
    }
  }

  /** Splitting loses nothing: joining the comma-free parts gives the annotation back. */
  lemma {:induction false} JoinSplit(s: string)
    ensures Join(Split(s)) == s
  {
    if s != [] {
      var n := |s| - 1;
      var before := Split(s[..n]);
      var k := |before| - 1;
      JoinSplit(s[..n]);
      assert s == s[..n] + [s[n]] && before == before[..k] + [before[k]];
      JoinSnoc(before, "");
      JoinExtend(before[..k], before[k], s[n]);
    }
  }

  function ParseAll(cfg: Settings, parts: seq<string>): (ips: Option<seq<string>>)
    ensures ips.Some? ==> |ips.value| == |parts|
  {
    if parts == [] then Some([])
    else
      var before, last := ParseAll(cfg, parts[..|parts| - 1]), cfg.parse(parts[|parts| - 1]);
      if before.None? || last.None? then None else Some(before.value + [cfg.show(last.value)])
  }

  datatype Wanted = Ips(texts: seq<string>, generated: bool) | NoIps(outcome: Outcome)

  function WantedIps(cfg: Settings, svc: Service, now: int, draw: int): Wanted {
    if svc.annotation == "" then
      if cfg.serviceNets == [] || PeerAddresses.HostBits(cfg.serviceNets[0]) >= 128 then NoIps(Panicked)
      else
        var n := cfg.serviceNets[0];
        match PeerAddresses.HostBig(n, Index(now, PeerAddresses.HostBits(n), draw))
        case None => NoIps(Retry)
        case Some(a) => Ips([cfg.show(a)], true)
    else
      match ParseAll(cfg, Split(svc.annotation))
      case None => NoIps(Terminal)
      case Some(texts) => Ips(texts, false)
  }

  // ---------------------------------------------------------------- one reconcile

  predicate HasIngress(s: Service, ip: string) {
    exists j :: 0 <= j < |s.ingress| && s.ingress[j].ip == ip
  }

  predicate Conflict(list: seq<Service>, uid: nat, texts: seq<string>) {
    exists i, k :: 0 <= i < |list| && 0 <= k < |texts| && list[i].uid != uid && HasIngress(list[i], texts[k])
  }

  function IngressFor(texts: seq<string>, ports: seq<Port>): (r: seq<Ingress>)
    ensures |r| == |texts| && forall i :: 0 <= i < |r| ==> r[i] == Ingress(texts[i], ports)
  {
    seq(|texts|, i requires 0 <= i < |texts| => Ingress(texts[i], ports))
  }

  predicate LastIsInvalid(s: Service) {
    |s.conditions| > 0 && s.conditions[|s.conditions| - 1] == InvalidLoadBalancerIP
  }

  /** The service after a reconcile that reads `list`; `takes` says whether the API server takes
      the status update. */
  function Reconcile(cfg: Settings, svc: Service, list: seq<Service>, now: int, draw: int, takes: bool)
    : (Service, Outcome)
  {
    if svc.ingress != [] then (svc, AlreadyAssigned)
    else
      match WantedIps(cfg, svc, now, draw)
      case NoIps(outcome) => (svc, outcome)
      case Ips(texts, generated) =>
        if Conflict(list, svc.uid, texts) then
          if generated || LastIsInvalid(svc) || !takes then (svc, Retry)
          else (svc.(conditions := svc.conditions + [InvalidLoadBalancerIP]), Rejected)
        else if !takes then (svc, Retry)
        else
          (svc.(ingress := IngressFor(texts, svc.ports), conditions := svc.conditions + [LoadBalancerReady]), Assigned)
  }

  class ServiceObject {
    var stored: Service

    constructor (s: Service)
      ensures stored == s
    {
      stored := s;
    }

    method UpdateStatus(s: Service, takes: bool) returns (ok: bool)
      modifies this
      ensures ok == takes && stored == if takes then s else old(stored)
    {
      ok := takes;
      if takes {
        stored := s;
      }
    }
  }

  method FindConflict(list: seq<Service>, uid: nat, texts: seq<string>) returns (found: bool)
    ensures found <==> Conflict(list, uid, texts)
  {
    for i := 0 to |list|
      invariant !Conflict(list[..i], uid, texts)
    {
      var service := list[i];
      if service.uid == uid {
        assert !Conflict(list[..i + 1], uid, texts);
        continue;
      }
      for j := 0 to |service.ingress|
        invariant forall l, k :: 0 <= l < j && 0 <= k < |texts| ==> service.ingress[l].ip != texts[k]
      {
        for k := 0 to |texts|
          invariant forall m :: 0 <= m < k ==> service.ingress[j].ip != texts[m]
        {
          if service.ingress[j].ip == texts[k] {
            assert HasIngress(list[i], texts[k]);
            return true;
          }
        }
      }
      assert !Conflict(list[..i + 1], uid, texts);
    }
    assert list[..|list|] == list;
    return false;
  }

  method ReadIps(cfg: Settings, annotation: string) returns (ips: Option<seq<string>>)
    ensures ips == ParseAll(cfg, Split(annotation))
  {
    var parts := Split(annotation);
    var serviceIPs: seq<string> := [];
    for i := 0 to |parts|
      invariant ParseAll(cfg, parts[..i]) == Some(serviceIPs)
    {
      assert parts[..i + 1][..i] == parts[..i];
      var ip := cfg.parse(parts[i]);
      if ip.None? {
        ParseStops(cfg, parts, i);
        return None;
      }
      serviceIPs := serviceIPs + [cfg.show(ip.value)];
    }
    assert parts[..|parts|] == parts;
    return Some(serviceIPs);
  }

  lemma {:induction false} ParseStops(cfg: Settings, parts: seq<string>, i: nat)
    requires i < |parts| && cfg.parse(parts[i]).None?
    ensures ParseAll(cfg, parts) == None
  {
    if i < |parts| - 1 {
      ParseStops(cfg, parts[..|parts| - 1], i);
    }
  }

  method ChooseIps(cfg: Settings, svc: Service, now: int, draw: int) returns (w: Wanted)
    requires DrawnFor(cfg, draw)
    ensures w == WantedIps(cfg, svc, now, draw)
  {
    if svc.annotation == "" {
      if |cfg.serviceNets| == 0 {
        return NoIps(Panicked);
      }
      var n := cfg.serviceNets[0];
      var index := GenerateIndex(now, PeerAddresses.HostBits(n), draw);
      if index.Err? {
        return NoIps(Panicked);
      }
      var ip := PeerAddresses.HostBig(n, index.value);
      return if ip.None? then NoIps(Retry) else Ips([cfg.show(ip.value)], true);
    }
    var ips := ReadIps(cfg, svc.annotation);
    return if ips.None? then NoIps(Terminal) else Ips(ips.value, false);
  }

  /** The draw is within the bound the random source was given for the first service network. */
  ghost predicate DrawnFor(cfg: Settings, draw: int) {
    cfg.serviceNets != [] && PeerAddresses.HostBits(cfg.serviceNets[0]) < 128 ==>
      0 <= draw < RandBound(PeerAddresses.HostBits(cfg.serviceNets[0]))
  }

  method BuildIngress(texts: seq<string>, ports: seq<Port>) returns (ingress: seq<Ingress>)
    ensures ingress == IngressFor(texts, ports)
  {
    ingress := [];
    for i := 0 to |texts|
      invariant ingress == IngressFor(texts[..i], ports)
    {
      ingress := ingress + [Ingress(texts[i], ports)];
    }
    assert texts[..|texts|] == texts;
  }

  method ReconcileService(cfg: Settings, obj: ServiceObject, list: seq<Service>, now: int, draw: int, takes: bool)
    returns (outcome: Outcome)
    requires DrawnFor(cfg, draw)
    modifies obj
    ensures (obj.stored, outcome) == Reconcile(cfg, old(obj.stored), list, now, draw, takes)
  {
    var svc := obj.stored;
    if |svc.ingress| != 0 {
      return AlreadyAssigned;
    }
    var wanted := ChooseIps(cfg, svc, now, draw);
    if wanted.NoIps? {
      return wanted.outcome;
    }
    var conflict := FindConflict(list, svc.uid, wanted.texts);
    if conflict {
      if wanted.generated || LastIsInvalid(svc) {
        return Retry;
      }
      var ok := obj.UpdateStatus(svc.(conditions := svc.conditions + [InvalidLoadBalancerIP]), takes);
      return if ok then Rejected else Retry;
    }
    var ingress := BuildIngress(wanted.texts, svc.ports);
    var ok := obj.UpdateStatus(svc.(ingress := ingress, conditions := svc.conditions + [LoadBalancerReady]), takes);
    return if ok then Assigned else Retry;
  }

  // ---------------------------------------------------------------- what one reconcile means

  predicate Unreadable(cfg: Settings, parts: seq<string>) {
    exists k :: 0 <= k < |parts| && cfg.parse(parts[k]).None?
  }

  lemma {:induction false} ParseAllAre(cfg: Settings, parts: seq<string>, i: nat)
    requires i < |parts|
    ensures ParseAll(cfg, parts).Some? ==>
              cfg.parse(parts[i]).Some? && ParseAll(cfg, parts).value[i] == cfg.show(cfg.parse(parts[i]).value)
    ensures ParseAll(cfg, parts).None? <==> Unreadable(cfg, parts)
    decreases |parts|
  {
    var n := |parts| - 1;
    if n > 0 {
      ParseAllAre(cfg, parts[..n], if i < n then i else 0);
    }
    if k :| 0 <= k < |parts| && cfg.parse(parts[k]).None? {
      ParseStops(cfg, parts, k);
    } else if n > 0 {
      assert forall k :: 0 <= k < n ==> parts[..n][k] == parts[k];
    }
  }

  /** An assigned service has exactly the requested IPs in the requested order, or else one IP of
      the first service network, each with all its ports; any other outcome leaves the ingress
      alone, and a service that has one is left alone altogether. */
  lemma AssignedMeans(cfg: Settings, svc: Service, list: seq<Service>, now: int, draw: int, takes: bool)
    ensures var (s, outcome) := Reconcile(cfg, svc, list, now, draw, takes);
            var parts := Split(svc.annotation);
            && (!outcome.Assigned? ==> s.ingress == svc.ingress)
            && (outcome.AlreadyAssigned? <==> svc.ingress != []) && (svc.ingress != [] ==> s == svc)
            && (outcome.Assigned? && svc.annotation != "" ==>
                  && |s.ingress| == |parts|
                  && forall i :: 0 <= i < |parts| ==> IsIngressOf(cfg, svc, s.ingress[i], cfg.parse(parts[i])))
            && (outcome.Assigned? && svc.annotation == "" ==>
                  |s.ingress| == 1 && exists a :: InServiceNet(cfg, a) && IsIngressOf(cfg, svc, s.ingress[0], Some(a)))
  {
    var (s, outcome) := Reconcile(cfg, svc, list, now, draw, takes);
    var parts := Split(svc.annotation);
    forall i | 0 <= i < |parts| {
      ParseAllAre(cfg, parts, i);
    }
    if outcome.Assigned? && svc.annotation == "" {
      var n := cfg.serviceNets[0];
      var a := PeerAddresses.HostBig(n, Index(now, PeerAddresses.HostBits(n), draw)).value;
      assert InServiceNet(cfg, a);
    }
  }

  function IndexOf(now: nat, mask: nat, draw: int): int {
    (now * Pow2(if mask >= 80 then mask - 64 else 16) + 2 * draw) % Pow2(mask)
  }

  function HostBitsOf(n: Net): int {
    (if n.ip.family.V4? then 32 else 128) - n.ones
  }

  /** The IP that is generated at time `t`. */
  function IpAt(cfg: Settings, t: nat, mask: nat, draw: int): string
    requires cfg.serviceNets != []
  {
    cfg.show(Addr(cfg.serviceNets[0].ip.family, cfg.serviceNets[0].ip.value + IndexOf(t, mask, draw)))
  }

  lemma GeneratedIs(cfg: Settings, now: nat, draw: int)
    requires cfg.serviceNets != [] && DrawnFor(cfg, draw)
    ensures var n, mask := cfg.serviceNets[0], HostBitsOf(cfg.serviceNets[0]);
            0 <= mask < 128 ==>
              PeerAddresses.HostBits(n) == mask
              && PeerAddresses.HostBig(n, Index(now, mask, draw))
                 == Some(Addr(n.ip.family, n.ip.value + IndexOf(now, mask, draw)))
  {
    var mask := PeerAddresses.HostBits(cfg.serviceNets[0]);
    if mask < 128 {
      RandBoundIs(mask);
      IndexIs(now, mask, draw);
      IndexBound(now, mask, draw);
    }
  }

  /** The IP that is generated for a service without a request, in numbers: the base of the first
      service network plus time above randomness, with 16 random bits or what the network leaves. */
  lemma GeneratedMeans(cfg: Settings, svc: Service, list: seq<Service>, now: nat, draw: int, takes: bool)
    requires svc.annotation == "" && DrawnFor(cfg, draw)
    ensures var (s, outcome) := Reconcile(cfg, svc, list, now, draw, takes);
            outcome.Assigned? ==>
              cfg.serviceNets != []
              && var mask := HostBitsOf(cfg.serviceNets[0]);
              (0 <= mask < 128 ==> s.ingress == [Ingress(IpAt(cfg, now, mask, draw), svc.ports)])
  {
    if cfg.serviceNets != [] {
      GeneratedIs(cfg, now, draw);
    }
  }

  /** A service without a request: it panics without a first network or with one of 128 host bits or
      more; otherwise the generated IP is assigned if no other listed service has it, and else, or if
      the update fails, it is tried again, without a trace in the status. */
  lemma GeneratedOutcome(cfg: Settings, svc: Service, list: seq<Service>, now: nat, draw: int, takes: bool)
    requires svc.annotation == "" && svc.ingress == [] && DrawnFor(cfg, draw)
    ensures var (s, outcome) := Reconcile(cfg, svc, list, now, draw, takes);
            if cfg.serviceNets == [] || (cfg.serviceNets[0].ip.family.V6? && cfg.serviceNets[0].ones == 0)
            then outcome.Panicked? && s == svc
            else
              var mask := HostBitsOf(cfg.serviceNets[0]);
              0 <= mask ==>
                var ip := IpAt(cfg, now, mask, draw);
                && (outcome.Assigned? <==>
                      takes && forall o :: o in list && o.uid != svc.uid ==> !HasIngress(o, ip))
                && (!outcome.Assigned? ==> outcome.Retry? && s == svc)
  {
    if cfg.serviceNets != [] && 0 <= HostBitsOf(cfg.serviceNets[0]) < 128 {
      GeneratedIs(cfg, now, draw);
      OneIpConflicts(list, svc.uid, IpAt(cfg, now, HostBitsOf(cfg.serviceNets[0]), draw));
    }
  }

  lemma OneIpConflicts(list: seq<Service>, uid: nat, ip: string)
    ensures Conflict(list, uid, [ip]) <==> exists o :: o in list && o.uid != uid && HasIngress(o, ip)
  {
    if o :| o in list && o.uid != uid && HasIngress(o, ip) {
      var i :| 0 <= i < |list| && list[i] == o;
      assert HasIngress(list[i], [ip][0]);
    }
  }

  /** At least two ticks apart, and less than a period. */
  predicate Window(t: nat, now: nat, mask: nat)
    requires 16 <= mask
  {
    var period := Pow2(if mask < 80 then mask - 16 else 64);
    2 <= now - t <= period - 2 || 2 <= t - now <= period - 2
  }

  /** The service has no IP but one that was generated within the window. */
  ghost predicate GeneratedNear(cfg: Settings, s: Service, now: nat, mask: nat)
    requires cfg.serviceNets != [] && 16 <= mask
  {
    exists t: nat, d :: Draw(mask, d) && Window(t, now, mask) && OnlyHas(s, IpAt(cfg, t, mask, d))
  }

  ghost predicate OnlyHas(s: Service, ip: string) {
    forall other :: HasIngress(s, other) ==> other == ip
  }

  lemma NearIsOther(cfg: Settings, s: Service, now: nat, mask: nat, draw: int)
    requires cfg.serviceNets != [] && 16 <= mask < 128 && Draw(mask, draw) && GeneratedNear(cfg, s, now, mask)
    requires forall a, b :: cfg.show(a) == cfg.show(b) ==> a == b
    ensures !HasIngress(s, IpAt(cfg, now, mask, draw))
  {
    var t: nat, d :| Draw(mask, d) && Window(t, now, mask) && OnlyHas(s, IpAt(cfg, t, mask, d));
    IndicesDiffer(t, now, mask, d, draw);
  }

  /** Within that window generated IPs do not conflict: if every other listed service has no IP or one
      that was generated within it, the service gets its IP at the first attempt. */
  lemma GeneratedIsFree(cfg: Settings, svc: Service, list: seq<Service>, now: nat, draw: int)
    requires svc.annotation == "" && svc.ingress == [] && DrawnFor(cfg, draw)
    requires cfg.serviceNets != [] && 16 <= HostBitsOf(cfg.serviceNets[0]) < 128
    requires forall a, b :: cfg.show(a) == cfg.show(b) ==> a == b
    requires forall o :: o in list && o.uid != svc.uid && o.ingress != [] ==>
               GeneratedNear(cfg, o, now, HostBitsOf(cfg.serviceNets[0]))
    ensures Reconcile(cfg, svc, list, now, draw, true).1.Assigned?
  {
    var mask := HostBitsOf(cfg.serviceNets[0]);
    RandBoundIs(mask);
    GeneratedOutcome(cfg, svc, list, now, draw, true);
    forall o | o in list && o.uid != svc.uid ensures !HasIngress(o, IpAt(cfg, now, mask, draw)) {
      if o.ingress != [] {
        NearIsOther(cfg, o, now, mask, draw);
      }
    }
  }

  lemma IndicesDiffer(t: nat, now: nat, mask: nat, d: int, draw: int)
    requires 16 <= mask < 128 && Draw(mask, d) && Draw(mask, draw) && Window(t, now, mask)
    ensures IndexOf(t, mask, d) != IndexOf(now, mask, draw)
  {
    IndexIs(t, mask, d);
    IndexIs(now, mask, draw);
    if t < now {
      NoCollisionInWindow(t, now, mask, d, draw);
    } else {
      NoCollisionInWindow(now, t, mask, draw, d);
    }
  }

  /** A requested IP that another listed service has: the request is rejected with its condition the
      first time the update is taken, and otherwise tried again without a trace. */
  lemma RequestIsRejected(cfg: Settings, svc: Service, list: seq<Service>, now: int, draw: int, takes: bool,
                          k: nat, other: Service)
    requires svc.annotation != "" && svc.ingress == [] && !Unreadable(cfg, Split(svc.annotation))
    requires k < |Split(svc.annotation)| && other in list && other.uid != svc.uid
    requires HasIngress(other, cfg.show(ParsedPart(cfg, svc, k)))
    ensures var (s, outcome) := Reconcile(cfg, svc, list, now, draw, takes);
            var again := |svc.conditions| > 0 && svc.conditions[|svc.conditions| - 1] == InvalidLoadBalancerIP;
            if takes && !again
            then outcome.Rejected? && s == svc.(conditions := svc.conditions + [InvalidLoadBalancerIP])
            else outcome.Retry? && s == svc
  {
    var parts := Split(svc.annotation);
    ParseAllAre(cfg, parts, k);
    var i :| 0 <= i < |list| && list[i] == other;
    assert HasIngress(list[i], ParseAll(cfg, parts).value[k]);
  }

  /** A request is refused for good exactly when a part of it is no IP; nothing is stored then. */
  lemma TerminalIff(cfg: Settings, svc: Service, list: seq<Service>, now: int, draw: int, takes: bool)
    requires svc.ingress == [] && svc.annotation != ""
    ensures Reconcile(cfg, svc, list, now, draw, takes).1.Terminal? <==> Unreadable(cfg, Split(svc.annotation))
    ensures Unreadable(cfg, Split(svc.annotation)) ==> Reconcile(cfg, svc, list, now, draw, takes).0 == svc
  {
    ParseAllAre(cfg, Split(svc.annotation), 0);
  }

  /** A readable request is granted exactly if the service has no IP yet, no other listed service
      has any of the requested ones, and the API server takes the update. */
  lemma RequestIsGrantedIff(cfg: Settings, svc: Service, list: seq<Service>, now: int, draw: int, takes: bool)
    requires svc.annotation != "" && !Unreadable(cfg, Split(svc.annotation))
    ensures Reconcile(cfg, svc, list, now, draw, takes).1.Assigned? <==>
            svc.ingress == [] && takes
            && forall s, k :: s in list && s.uid != svc.uid && 0 <= k < |Split(svc.annotation)| ==>
                 !HasIngress(s, cfg.show(ParsedPart(cfg, svc, k)))
  {
    var parts := Split(svc.annotation);
    ParseAllAre(cfg, parts, 0);
    var texts := ParseAll(cfg, parts).value;
    forall k | 0 <= k < |parts| ensures texts[k] == cfg.show(ParsedPart(cfg, svc, k)) {
      ParseAllAre(cfg, parts, k);
    }
    if Conflict(list, svc.uid, texts) {
      var i, k :| 0 <= i < |list| && 0 <= k < |texts| && list[i].uid != svc.uid && HasIngress(list[i], texts[k]);
      assert list[i] in list;
    }
  }

  function ParsedPart(cfg: Settings, svc: Service, k: nat): Addr
    requires k < |Split(svc.annotation)| && !Unreadable(cfg, Split(svc.annotation))
  {
    cfg.parse(Split(svc.annotation)[k]).value
  }

  ghost predicate IsIngressOf(cfg: Settings, svc: Service, i: Ingress, a: Option<Addr>) {
    a.Some? && i.ip == cfg.show(a.value) && i.ports == svc.ports
  }

  ghost predicate InServiceNet(cfg: Settings, a: Addr) {
    cfg.serviceNets != [] && PeerAddresses.InRange(a, cfg.serviceNets[0])
  }

  // ---------------------------------------------------------------- runs

  type Cluster = map<nat, Service>

  datatype Event =
    | Create(svc: Service)
    | Annotate(uid: nat, annotation: string)
    | Delete(uid: nat)
    | Foreign(uid: nat, ingress: seq<Ingress>)
    | Run(uid: nat, list: seq<Service>, now: int, draw: int, takes: bool)

  /** Services start without status. Other controllers may set any ingress on services of other
      classes. A reconcile may have read any list, from whatever time; of the service itself an
      outdated copy is as good as none, because the API server refuses to store it. */
  ghost predicate Step(cfg: Settings, c: Cluster, e: Event, c': Cluster) {
    match e
    case Create(svc) =>
      svc.uid !in c && svc.ingress == [] && svc.conditions == [] && c' == c[svc.uid := svc]
    case Annotate(uid, annotation) =>
      uid in c && c' == c[uid := c[uid].(annotation := annotation)]
    case Delete(uid) =>
      c' == c - {uid}
    case Foreign(uid, ingress) =>
      uid in c && !IsLoadBalancerClass(c[uid]) && c' == c[uid := c[uid].(ingress := ingress)]
    case Run(uid, list, now, draw, takes) =>
      && uid in c && IsLoadBalancerClass(c[uid])
      && c' == c[uid := Reconcile(cfg, c[uid], list, now, draw, takes).0]
  }

  ghost predicate Execution(cfg: Settings, cs: seq<Cluster>, es: seq<Event>) {
    |cs| == |es| + 1 && cs[0] == map[] && forall i :: 0 <= i < |es| ==> Step(cfg, cs[i], es[i], cs[i + 1])
  }

  ghost predicate Keyed(c: Cluster) {
    forall u :: u in c ==> c[u].uid == u
  }

  predicate IsOurs(c: Cluster, u: nat) {
    u in c && IsLoadBalancerClass(c[u])
  }

  /** No IP is in the ingress of two of our services. */
  ghost predicate UniqueIps(c: Cluster) {
    forall u, v, ip | IsOurs(c, u) && IsOurs(c, v) && u != v :: HasIngress(c[u], ip) ==> !HasIngress(c[v], ip)
  }

  /** The conditions of one of our services: the four lists, ready exactly when assigned. */
  ghost predicate GoodConditions(s: Service) {
    if s.ingress == []
    then s.conditions == [] || s.conditions == [InvalidLoadBalancerIP]
    else s.conditions == [LoadBalancerReady] || s.conditions == [InvalidLoadBalancerIP, LoadBalancerReady]
  }

  ghost predicate Invariant(c: Cluster) {
    Keyed(c) && forall u :: IsOurs(c, u) ==> GoodConditions(c[u])
  }

  // ---------------------------------------------------------------- conditions

  /** No list a reconcile may have read spoils the conditions. */
  lemma StepKeepsInvariant(cfg: Settings, c: Cluster, e: Event, c': Cluster)
    requires Invariant(c) && Step(cfg, c, e, c')
    ensures Invariant(c')
  {
  }

  /** Over every run, whatever lists are read, every service's conditions are one of [], [Invalid],
      [Ready], [Invalid, Ready], ready last exactly when it has an IP. */
  lemma {:induction false} ConditionsOverEveryRun(cfg: Settings, cs: seq<Cluster>, es: seq<Event>, i: nat)
    requires Execution(cfg, cs, es) && i < |cs|
    ensures Keyed(cs[i]) && forall u :: IsOurs(cs[i], u) ==> GoodConditions(cs[i][u])
    ensures Invariant(cs[i])
  {
    if i > 0 {
      ConditionsOverEveryRun(cfg, cs, es, i - 1);
      StepKeepsInvariant(cfg, cs[i - 1], es[i - 1], cs[i]);
    }
  }

  // ---------------------------------------------------------------- uniqueness

  /** An assignment conflicts with no service of the list it read, of whatever class. */
  lemma AssignedIsFree(cfg: Settings, svc: Service, list: seq<Service>, now: int, draw: int, takes: bool,
                       ip: string, other: Service)
    requires Reconcile(cfg, svc, list, now, draw, takes).1.Assigned?
    requires HasIngress(Reconcile(cfg, svc, list, now, draw, takes).0, ip) && other in list && other.uid != svc.uid
    ensures !HasIngress(other, ip)
  {
    var texts := WantedIps(cfg, svc, now, draw).texts;
    var k :| 0 <= k < |texts| && texts[k] == ip;
    var i :| 0 <= i < |list| && list[i] == other;
    assert !Conflict(list, svc.uid, texts);
  }

  /** Another one of our services has one of the IPs now. */
  ghost predicate Taken(c: Cluster, uid: nat, texts: seq<string>) {
    exists v, k :: IsOurs(c, v) && v != uid && 0 <= k < |texts| && HasIngress(c[v], texts[k])
  }

  /** The event is no reconcile that is about to assign an IP which is taken, although the list it
      read shows no conflict. */
  ghost predicate SafeEvent(cfg: Settings, c: Cluster, e: Event) {
    e.Run? && e.uid in c && e.takes && c[e.uid].ingress == [] ==>
      var w := WantedIps(cfg, c[e.uid], e.now, e.draw);
      w.Ips? && Taken(c, e.uid, w.texts) ==> Conflict(e.list, e.uid, w.texts)
  }

  lemma AssignsWanted(cfg: Settings, svc: Service, list: seq<Service>, now: int, draw: int, ip: string)
    requires svc.ingress == [] && WantedIps(cfg, svc, now, draw).Ips?
    requires !Conflict(list, svc.uid, WantedIps(cfg, svc, now, draw).texts)
    ensures HasIngress(Reconcile(cfg, svc, list, now, draw, true).0, ip) <==> ip in WantedIps(cfg, svc, now, draw).texts
  {
    var texts := WantedIps(cfg, svc, now, draw).texts;
    var s := Reconcile(cfg, svc, list, now, draw, true).0;
    if ip in texts {
      var k :| 0 <= k < |texts| && texts[k] == ip;
      assert s.ingress[k].ip == ip;
    }
  }

  /** For every list a reconcile may have read, current or not: an event keeps the IPs unique if and
      only if it is safe. */
  lemma EventKeepsUniqueIff(cfg: Settings, c: Cluster, e: Event, c': Cluster)
    requires Keyed(c) && UniqueIps(c) && Step(cfg, c, e, c')
    ensures UniqueIps(c') <==> SafeEvent(cfg, c, e)
  {
    if e.Run? && e.takes && c[e.uid].ingress == [] && WantedIps(cfg, c[e.uid], e.now, e.draw).Ips?
       && !Conflict(e.list, e.uid, WantedIps(cfg, c[e.uid], e.now, e.draw).texts)
    {
      AssignmentIsUniqueIff(cfg, c, e, c');
    } else {
      OthersKeepUnique(c, c');
    }
  }

  /** Nobody gets an IP that had none. */
  lemma OthersKeepUnique(c: Cluster, c': Cluster)
    requires UniqueIps(c)
    requires forall u :: IsOurs(c', u) ==> c'[u].ingress == [] || (IsOurs(c, u) && c'[u].ingress == c[u].ingress)
    ensures UniqueIps(c')
  {
    forall u, v, ip | IsOurs(c', u) && IsOurs(c', v) && u != v && HasIngress(c'[u], ip) ensures !HasIngress(c'[v], ip) {
      assert c'[v].ingress != [] ==> !HasIngress(c[v], ip);
    }
  }

  lemma AssignmentIsUniqueIff(cfg: Settings, c: Cluster, e: Event, c': Cluster)
    requires Keyed(c) && UniqueIps(c) && Step(cfg, c, e, c') && e.Run? && e.takes && c[e.uid].ingress == []
    requires WantedIps(cfg, c[e.uid], e.now, e.draw).Ips?
    requires !Conflict(e.list, e.uid, WantedIps(cfg, c[e.uid], e.now, e.draw).texts)
    ensures UniqueIps(c') <==> !Taken(c, e.uid, WantedIps(cfg, c[e.uid], e.now, e.draw).texts)
  {
    var texts := WantedIps(cfg, c[e.uid], e.now, e.draw).texts;
    forall ip {
      AssignsWanted(cfg, c[e.uid], e.list, e.now, e.draw, ip);
    }
    if v, k :| IsOurs(c, v) && v != e.uid && 0 <= k < |texts| && HasIngress(c[v], texts[k]) {
      assert HasIngress(c'[e.uid], texts[k]) && HasIngress(c'[v], texts[k]);
      assert IsOurs(c', v) && IsOurs(c', e.uid);
    } else {
      forall u, v, ip | IsOurs(c', u) && IsOurs(c', v) && u != v && HasIngress(c'[u], ip)
        ensures !HasIngress(c'[v], ip)
      {
        assert IsOurs(c, u) && IsOurs(c, v);
      }
    }
  }

  /** Over every run, whatever lists were read: the IPs of our services are unique at every moment
      if and only if every reconcile was safe. */
  lemma {:induction false} UniqueOverEveryRunIff(cfg: Settings, cs: seq<Cluster>, es: seq<Event>, n: nat)
    requires Execution(cfg, cs, es) && n < |cs|
    ensures (forall i: nat :: i <= n ==> UniqueIps(cs[i])) <==> forall i: nat :: i < n ==> SafeEvent(cfg, cs[i], es[i])
  {
    if n > 0 {
      UniqueOverEveryRunIff(cfg, cs, es, n - 1);
      ConditionsOverEveryRun(cfg, cs, es, n - 1);
      if UniqueIps(cs[n - 1]) {
        EventKeepsUniqueIff(cfg, cs[n - 1], es[n - 1], cs[n]);
      }
    }
  }

  /** The list shows every IP of our services. It may be outdated in everything else. */
  ghost predicate ShowsIps(list: seq<Service>, c: Cluster) {
    forall v, ip :: IsOurs(c, v) && HasIngress(c[v], ip) ==>
      exists i :: 0 <= i < |list| && list[i].uid == v && HasIngress(list[i], ip)
  }

  /** In particular, IPs stay unique over every run in which each reconcile reads a list with the
      IPs assigned so far, as it does when reading the list and writing the status are one step. */
  lemma UniqueOverEveryRun(cfg: Settings, cs: seq<Cluster>, es: seq<Event>, n: nat)
    requires Execution(cfg, cs, es) && n < |cs|
    requires forall i :: 0 <= i < n && es[i].Run? ==> ShowsIps(es[i].list, cs[i])
    ensures UniqueIps(cs[n])
  {
    forall i: nat | i < n ensures SafeEvent(cfg, cs[i], es[i]) {
      if es[i].Run? && es[i].uid in cs[i] && WantedIps(cfg, cs[i][es[i].uid], es[i].now, es[i].draw).Ips? {
        ShownIsConflict(cs[i], es[i].list, es[i].uid, WantedIps(cfg, cs[i][es[i].uid], es[i].now, es[i].draw).texts);
      }
    }
    UniqueOverEveryRunIff(cfg, cs, es, n);
  }

  lemma ShownIsConflict(c: Cluster, list: seq<Service>, uid: nat, texts: seq<string>)
    requires ShowsIps(list, c)
    ensures Taken(c, uid, texts) ==> Conflict(list, uid, texts)
  {
    if v, k :| IsOurs(c, v) && v != uid && 0 <= k < |texts| && HasIngress(c[v], texts[k]) {
      var i :| 0 <= i < |list| && list[i].uid == v && HasIngress(list[i], texts[k]);
    }
  }

  /** An assigned service keeps its ingress and conditions through every later event but its
      deletion. */
  lemma AssignmentIsFinal(cfg: Settings, cs: seq<Cluster>, es: seq<Event>, i: nat, j: nat, u: nat)
    requires Execution(cfg, cs, es) && i <= j < |cs|
    requires forall k :: i <= k <= j ==> u in cs[k]
    requires cs[i][u].class_ == Some("wga.kraudcloud.com/intranet") && cs[i][u].kind == "LoadBalancer"
    requires cs[i][u].ingress != []
    ensures cs[j][u].ingress == cs[i][u].ingress && cs[j][u].conditions == cs[i][u].conditions
    ensures IsLoadBalancerClass(cs[j][u])
    decreases j - i
  {
    if i < j {
      assert Step(cfg, cs[i], es[i], cs[i + 1]);
      assert u in cs[i + 1];
      AssignmentIsFinal(cfg, cs, es, i + 1, j, u);
    }
  }

  /** What an unsafe reconcile looks like: two services ask for the same IPs, and each reads a list
      in which the other one has none yet. Both are given them. */
  lemma StaleListsAssignTwice(cfg: Settings, a: Service, b: Service, now: int, draw: int)
    requires a.uid != b.uid && a.ingress == b.ingress == []
    requires a.annotation == b.annotation != "" && !Unreadable(cfg, Split(a.annotation))
    ensures var ra, rb := Reconcile(cfg, a, [a, b], now, draw, true), Reconcile(cfg, b, [a, b], now, draw, true);
            && ra.1.Assigned? && rb.1.Assigned?
            && forall k :: 0 <= k < |Split(a.annotation)| ==>
                 HasIngress(ra.0, cfg.show(ParsedPart(cfg, a, k))) && HasIngress(rb.0, cfg.show(ParsedPart(cfg, a, k)))
  {
    var ra, rb := Reconcile(cfg, a, [a, b], now, draw, true), Reconcile(cfg, b, [a, b], now, draw, true);
    RequestIsGrantedIff(cfg, a, [a, b], now, draw, true);
    RequestIsGrantedIff(cfg, b, [a, b], now, draw, true);
    AssignedMeans(cfg, a, [a, b], now, draw, true);
    AssignedMeans(cfg, b, [a, b], now, draw, true);
    forall k | 0 <= k < |Split(a.annotation)|
      ensures HasIngress(ra.0, cfg.show(ParsedPart(cfg, a, k))) && HasIngress(rb.0, cfg.show(ParsedPart(cfg, a, k)))
    {
      assert ra.0.ingress[k].ip == cfg.show(ParsedPart(cfg, a, k));
      assert rb.0.ingress[k].ip == cfg.show(ParsedPart(cfg, a, k));
    }
  }
}
