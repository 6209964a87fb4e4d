/** The status of one cluster client, written by many nodes: each node reads the object, gets or
    creates its private key, and writes its public key back under the version it read. */
module ClusterStatus {
  import opened Nets

  datatype SecretName = SecretName(namespace: string, name: string)

  /** `ref` names a secret; an empty namespace or name stands for a default. */
  datatype NodeSpec = NodeSpec(nodeName: string, value: Option<string>, ref: Option<SecretName>)

  datatype StatusNode = StatusNode(nodeName: string, publicKey: Key)

  datatype Client = Client(version: nat, spec: seq<NodeSpec>, nodes: seq<StatusNode>)

  /** `parse` reads a private key, `show` prints one, `pub` derives the public key. */
  datatype Env = Env(
    wgcName: string,
    namespace: string,
    parse: string -> Option<Key>,
    show: Key -> string,
    pub: Key -> Key)

  type Secrets = map<SecretName, string>

  // ---------------------------------------------------------------- the private key

  function DefaultSecret(node: string, wgc: string): string {
    "wgc-" + wgc + "-" + node
  }

  function SecretOf(env: Env, node: string, ref: SecretName): SecretName {
    SecretName(if ref.namespace == "" then env.namespace else ref.namespace,
               if ref.name == "" then DefaultSecret(node, env.wgcName) else ref.name)
  }

  /** The first entry of that name. */
  function SpecOf(spec: seq<NodeSpec>, node: string): (r: Option<NodeSpec>)
    ensures r.Some? ==> r.value in spec && r.value.nodeName == node
    ensures r.None? <==> forall j :: 0 <= j < |spec| ==> spec[j].nodeName != node
  {
    if spec == [] then None else if spec[0].nodeName == node then Some(spec[0]) else SpecOf(spec[1..], node)
  }

  /** Where a node's private key is: inline, in a secret, or nowhere. */
  datatype Source = Inline(text: string) | InSecret(name: SecretName) | Nowhere

  function SourceOf(env: Env, spec: seq<NodeSpec>, node: string): Source {
    var s := SpecOf(spec, node);
    if s.None? then Nowhere
    else if s.value.value.Some? then Inline(s.value.value.value)
    else if s.value.ref.Some? then InSecret(SecretOf(env, node, s.value.ref.value))
    else Nowhere
  }

  /** The private key of a node, if there is a readable one. */
  function KeyOf(env: Env, spec: seq<NodeSpec>, secrets: Secrets, node: string): Option<Key> {
    match SourceOf(env, spec, node)
    case Inline(text) => env.parse(text)
    case InSecret(name) => if name in secrets then env.parse(secrets[name]) else None
    case Nowhere => None
  }

  /** The node's entry is the first one with its name. */
  ghost predicate FirstEntry(spec: seq<NodeSpec>, node: string, i: int) {
    0 <= i < |spec| && spec[i].nodeName == node && forall j :: 0 <= j < i ==> spec[j].nodeName != node
  }

  /** Where a key comes from, entry by entry: an inline key comes first; otherwise the secret that is
      named, with defaults for those parts of its name that are empty. */
  lemma {:induction false} KeyComesFrom(env: Env, spec: seq<NodeSpec>, secrets: Secrets, node: string, i: int)
    requires FirstEntry(spec, node, i)
    ensures SpecOf(spec, node) == Some(spec[i])
    ensures spec[i].value.Some? ==> KeyOf(env, spec, secrets, node) == env.parse(spec[i].value.value)
    ensures spec[i].value.None? && spec[i].ref.None? ==> KeyOf(env, spec, secrets, node) == None
    ensures spec[i].value.None? && spec[i].ref.Some? ==>
              var ref := spec[i].ref.value;
              var name := SecretName(if ref.namespace != "" then ref.namespace else env.namespace,
                                     if ref.name != "" then ref.name else "wgc-" + env.wgcName + "-" + node);
              && SourceOf(env, spec, node) == InSecret(name)
              && KeyOf(env, spec, secrets, node) == (if name in secrets then env.parse(secrets[name]) else None)
  {
    if i > 0 {
      KeyComesFrom(env, spec[1..], secrets, node, i - 1);
    }
  }

  /** Generated keys are read back. */
  ghost predicate Sane(env: Env) {
    forall k {:trigger env.show(k)} :: env.parse(env.show(k)) == Some(k)
  }

  // ---------------------------------------------------------------- the upsert

  /** The index of the first entry of that name, or the length. */
  function FirstNode(nodes: seq<StatusNode>, node: string): (i: nat)
    ensures i <= |nodes| && (i < |nodes| ==> nodes[i].nodeName == node)
    ensures forall j :: 0 <= j < i ==> nodes[j].nodeName != node
  {
    if nodes == [] || nodes[0].nodeName == node then 0 else 1 + FirstNode(nodes[1..], node)
  }

  function EntryOf(nodes: seq<StatusNode>, node: string): Option<Key> {
    var i := FirstNode(nodes, node);
    if i < |nodes| then Some(nodes[i].publicKey) else None
  }

  function Upserted(nodes: seq<StatusNode>, node: string, key: Key): seq<StatusNode> {
    var i := FirstNode(nodes, node);
    if i < |nodes| then nodes[i := StatusNode(node, key)] else nodes + [StatusNode(node, key)]
  }

  ghost predicate OneEntryEach(nodes: seq<StatusNode>) {
    forall i, j :: 0 <= i < j < |nodes| ==> nodes[i].nodeName != nodes[j].nodeName
  }

  lemma FirstNodeIs(nodes: seq<StatusNode>, node: string, i: nat)
    requires i <= |nodes| && (i < |nodes| ==> nodes[i].nodeName == node)
    requires forall j :: 0 <= j < i ==> nodes[j].nodeName != node
    ensures FirstNode(nodes, node) == i
  {
  }

  /** An upsert sets the entry of its node, leaves every other entry alone, and adds no second
      entry for a node. */
  lemma UpsertEffect(nodes: seq<StatusNode>, node: string, key: Key, other: string)
    ensures var after := Upserted(nodes, node, key);
            && EntryOf(after, other) == (if other == node then Some(key) else EntryOf(nodes, other))
            && (OneEntryEach(nodes) ==> OneEntryEach(after))
            && (EntryOf(nodes, node) == Some(key) ==> after == nodes)
            && |nodes| <= |after| <= |nodes| + 1
            && forall k :: 0 <= k < |nodes| ==> after[k].nodeName == nodes[k].nodeName
  {
    var after, i, j := Upserted(nodes, node, key), FirstNode(nodes, node), FirstNode(nodes, other);
    if other == node || j < |nodes| {
      FirstNodeIs(after, other, j);
    } else {
      FirstNodeIs(after, other, |after|);
    }
  }

  /** The stored object as a reconcile holds it in memory. */
  class ClientObject {
    var nodes: seq<StatusNode>

    constructor (nodes: seq<StatusNode>)
      ensures this.nodes == nodes
    {
      this.nodes := nodes;
    }

    /** `write` says whether the object has to be written even if nothing changed. */
    method Upsert(node: string, key: Key, always: bool) returns (write: bool)
      modifies this
      ensures nodes == Upserted(old(nodes), node, key)
      ensures write <==> always || EntryOf(old(nodes), node) != Some(key)
    {
      write := always;
      var found := false;
      for i := 0 to |nodes|
        invariant !found && nodes == old(nodes) && write == always
        invariant forall j :: 0 <= j < i ==> nodes[j].nodeName != node
      {
        if nodes[i].nodeName == node {
          FirstNodeIs(nodes, node, i);
          found := true;
          if nodes[i].publicKey != key {
            nodes := nodes[i := StatusNode(node, key)];
            write := true;
          }
          break;
        }
      }
      if !found {
        FirstNodeIs(nodes, node, |nodes|);
        nodes := nodes + [StatusNode(node, key)];
        write := true;
      }
    }
  }

  // ---------------------------------------------------------------- one reconcile

  /** `wrote` tells whether the object had to be written. */
  datatype Outcome = Skipped | Failed | Done(key: Key, wrote: bool)

  /** A secret that exists is never changed. */
  ghost predicate Extends(before: Secrets, after: Secrets) {
    forall n :: n in before ==> n in after && after[n] == before[n]
  }

  /** The object is the same one, or a later version of it. */
  ghost predicate SameOrLater(before: Client, after: Client) {
    after == before || after.version > before.version
  }

  /** The API server. Any call may fail; a `reliable` server only refuses what it has to. Between
      two calls other nodes and users may do anything, unless the process is `alone`. */
  class Server {
    const reliable: bool
    const alone: bool
    var client: Client
    var secrets: Secrets

    constructor (reliable: bool, alone: bool, client: Client, secrets: Secrets)
      ensures this.reliable == reliable && this.alone == alone && this.client == client && this.secrets == secrets
    {
      this.reliable, this.alone, this.client, this.secrets := reliable, alone, client, secrets;
    }

    method Others()
      modifies this
      ensures Extends(old(secrets), secrets) && SameOrLater(old(client), client)
      ensures alone ==> client == old(client) && secrets == old(secrets)
    {
      var more: Secrets := *;
      var later: Client := *;
      if !alone {
        secrets := more + secrets;
        if later.version > client.version {
          client := later;
        }
      }
    }

    method GetSecret(name: SecretName) returns (text: Option<string>)
      ensures text.Some? ==> name in secrets && text.value == secrets[name]
      ensures reliable && name in secrets ==> text.Some?
    {
      var works := *;
      text := if name in secrets && (reliable || works) then Some(secrets[name]) else None;
    }

    /** Never overwrites. */
    method CreateSecret(name: SecretName, text: string) returns (ok: bool)
      modifies this`secrets
      ensures ok ==> name !in old(secrets)
      ensures reliable && name !in old(secrets) ==> ok
      ensures secrets == if ok then old(secrets)[name := text] else old(secrets)
    {
      var works := *;
      ok := name !in secrets && (reliable || works);
      if ok {
        secrets := secrets[name := text];
      }
    }

    /** Takes the object only if it still has the version that was read. */
    method Update(seen: Client, nodes: seq<StatusNode>) returns (ok: bool)
      modifies this`client
      ensures ok ==> seen.version == old(client.version)
      ensures reliable && seen.version == old(client.version) ==> ok
      ensures client == if ok then Client(old(client.version) + 1, seen.spec, nodes) else old(client)
    {
      var works := *;
      ok := seen.version == client.version && (reliable || works);
      if ok {
        client := Client(client.version + 1, seen.spec, nodes);
      }
    }
  }

  method FindSpec(spec: seq<NodeSpec>, node: string) returns (found: Option<NodeSpec>)
    ensures found == SpecOf(spec, node)
  {
    for i := 0 to |spec|
      invariant SpecOf(spec, node) == SpecOf(spec[i..], node)
    {
      if spec[i].nodeName == node {
        return Some(spec[i]);
      }
      assert spec[i..][1..] == spec[i + 1..];
    }
    found := None;
  }

  /** Reads the secret, or creates it from the generated key when reading fails for any reason. */
  method GetOrCreate(server: Server, env: Env, name: SecretName, generated: Key) returns (text: Option<string>)
    modifies server
    ensures Extends(old(server.secrets), server.secrets) && SameOrLater(old(server.client), server.client)
    ensures text.Some? ==> name in server.secrets && text.value == server.secrets[name]
    ensures server.alone ==> server.client == old(server.client)
    ensures server.alone && text.Some? && name !in old(server.secrets) ==> text.value == env.show(generated)
    ensures server.alone && server.reliable ==> text.Some?
  {
    server.Others();
    text := server.GetSecret(name);
    if text.None? {
      server.Others();
      var ok := server.CreateSecret(name, env.show(generated));
      text := if ok then Some(env.show(generated)) else None;
    }
  }

  /** The node has a private key, or a secret's name under which one can be created. */
  predicate HasKey(env: Env, spec: seq<NodeSpec>, secrets: Secrets, node: string) {
    match SourceOf(env, spec, node)
    case Inline(text) => env.parse(text).Some?
    case InSecret(name) => name in secrets ==> env.parse(secrets[name]).Some?
    case Nowhere => false
  }

  method PrivateKey(server: Server, env: Env, spec: seq<NodeSpec>, node: string, found: NodeSpec, generated: Key)
    returns (key: Option<Key>)
    requires Sane(env) && SpecOf(spec, node) == Some(found)
    modifies server
    ensures Extends(old(server.secrets), server.secrets) && SameOrLater(old(server.client), server.client)
    ensures key.Some? ==> KeyOf(env, spec, server.secrets, node) == key
    ensures server.alone ==> server.client == old(server.client)
    ensures server.alone && key.Some? ==> HasKey(env, spec, old(server.secrets), node)
    ensures server.alone && server.reliable && HasKey(env, spec, old(server.secrets), node) ==> key.Some?
  {
    if found.value.Some? {
      return env.parse(found.value.value);
    }
    if found.ref.None? {
      return None;
    }
    var text := GetOrCreate(server, env, SecretOf(env, node, found.ref.value), generated);
    key := if text.Some? then env.parse(text.value) else None;
  }

  /** One reconcile, with interference between any two of its calls: `seen` is the object it read,
      `before` the object at the end but for its own write. */
  method ReconcileStatus(server: Server, env: Env, node: string, generated: Key)
    returns (outcome: Outcome, ghost seen: Client, ghost before: Client)
    requires Sane(env)
    modifies server
    ensures seen == old(server.client) && SameOrLater(seen, before) && Extends(old(server.secrets), server.secrets)
    ensures outcome.Skipped? <==> SpecOf(seen.spec, node).None?
    ensures outcome.Done? ==> KeyOf(env, seen.spec, server.secrets, node) == Some(outcome.key)
    // a write goes through only if nobody else wrote, and sets the node's entry and no other
    ensures outcome.Done? && outcome.wrote ==>
              before == seen && server.client.spec == seen.spec && server.client.version > seen.version
              && EntryOf(server.client.nodes, node) == Some(env.pub(outcome.key))
              && (forall other :: other != node ==> EntryOf(server.client.nodes, other) == EntryOf(seen.nodes, other))
              && (OneEntryEach(seen.nodes) ==> OneEntryEach(server.client.nodes))
    // otherwise nothing is written, because the entry was right or something failed
    ensures !(outcome.Done? && outcome.wrote) ==> server.client == before
    ensures outcome.Done? && !outcome.wrote ==> EntryOf(seen.nodes, node) == Some(env.pub(outcome.key))
    // a write is due if the entry was not right or the key is not inline
    ensures outcome.Done? ==>
              (outcome.wrote <==> SpecOf(seen.spec, node).value.value.None?
                                  || EntryOf(seen.nodes, node) != Some(env.pub(outcome.key)))
    ensures server.alone ==> before == seen
    ensures server.alone && server.reliable && HasKey(env, seen.spec, old(server.secrets), node) ==> outcome.Done?
  {
    var object_ := server.client;
    seen, before := object_, object_;
    var found := FindSpec(object_.spec, node);
    if found.None? {
      return Skipped, seen, before;
    }
    var key := PrivateKey(server, env, object_.spec, node, found.value, generated);
    before := server.client;
    if key.None? {
      return Failed, seen, before;
    }
    var held := new ClientObject(object_.nodes);
    var write := held.Upsert(node, env.pub(key.value), found.value.value.None?);
    forall other {
      UpsertEffect(object_.nodes, node, env.pub(key.value), other);
    }
    if write {
      ghost var secrets := server.secrets;
      server.Others();
      before := server.client;
      KeyStays(env, seen.spec, secrets, server.secrets, node);
      var ok := server.Update(object_, held.nodes);
      if !ok {
        return Failed, seen, before;
      }
    }
    outcome := Done(key.value, write);
  }

  // ---------------------------------------------------------------- many nodes

  datatype Phase = Listed(seen: Client) | Ready(seen: Client, key: Key)

  datatype Process = Process(node: string, phase: Phase)

  datatype World = World(client: Client, secrets: Secrets, processes: map<nat, Process>)

  datatype Action =
    | Edit(version: nat, spec: seq<NodeSpec>)
    | List(id: nat, node: string)
    | TakeKey(id: nat, key: Key)
    | Generate(id: nat, key: Key)
    | Write(id: nat, version: nat)
    | Leave(id: nat)

  ghost predicate InPhase(w: World, id: nat, ready: bool) {
    id in w.processes && w.processes[id].phase.Ready? == ready
  }

  /** What a write stores: the object that was read, with the node's entry set. */
  function Written(env: Env, p: Process, version: nat): Client
    requires p.phase.Ready?
  {
    Client(version, p.phase.seen.spec, Upserted(p.phase.seen.nodes, p.node, env.pub(p.phase.key)))
  }

  /** Any number of processes, also several on one node, each in the middle of a reconcile; the
      spec may be edited at any time; a process may give up at any time, and has to when its key
      is unreadable or its version is outdated. Storing an unchanged object may keep the version. */
  ghost predicate Step(env: Env, w: World, a: Action, w': World) {
    match a
    case Edit(version, spec) =>
      version > w.client.version && w' == w.(client := w.client.(version := version, spec := spec))
    case List(id, node) =>
      id !in w.processes && w' == w.(processes := w.processes[id := Process(node, Listed(w.client))])
    case TakeKey(id, key) =>
      && InPhase(w, id, false)
      && KeyOf(env, w.processes[id].phase.seen.spec, w.secrets, w.processes[id].node) == Some(key)
      && w' == w.(processes := w.processes[id := w.processes[id].(phase := Ready(w.processes[id].phase.seen, key))])
    case Generate(id, key) =>
      && InPhase(w, id, false)
      && var source := SourceOf(env, w.processes[id].phase.seen.spec, w.processes[id].node);
      && source.InSecret? && source.name !in w.secrets
      && w' == w.(secrets := w.secrets[source.name := env.show(key)],
                  processes := w.processes[id := w.processes[id].(phase := Ready(w.processes[id].phase.seen, key))])
    case Write(id, version) =>
      && InPhase(w, id, true) && w.processes[id].phase.seen.version == w.client.version
      && w' == w.(client := Written(env, w.processes[id], version), processes := w.processes - {id})
      && (version > w.client.version || w'.client == w.client)
    case Leave(id) =>
      w' == w.(processes := w.processes - {id})
  }

  ghost predicate Execution(env: Env, ws: seq<World>, acts: seq<Action>) {
    && Sane(env) && |ws| == |acts| + 1
    && ws[0].processes == map[] && OneEntryEach(ws[0].client.nodes)
    && forall i :: 0 <= i < |acts| ==> Step(env, ws[i], acts[i], ws[i + 1])
  }

  /** A process holds an old object or the current one, and the private key of the node it read. */
  ghost predicate GoodProcess(env: Env, w: World, p: Process) {
    && p.phase.seen.version <= w.client.version
    && (p.phase.seen.version == w.client.version ==> p.phase.seen == w.client)
    && (p.phase.Ready? ==> KeyOf(env, p.phase.seen.spec, w.secrets, p.node) == Some(p.phase.key))
  }

  ghost predicate Invariant(env: Env, w: World) {
    OneEntryEach(w.client.nodes) && forall id :: id in w.processes ==> GoodProcess(env, w, w.processes[id])
  }

  /** A node's key survives when secrets are added. */
  lemma KeyStays(env: Env, spec: seq<NodeSpec>, before: Secrets, after: Secrets, node: string)
    requires Extends(before, after) && KeyOf(env, spec, before, node).Some?
    ensures KeyOf(env, spec, after, node) == KeyOf(env, spec, before, node)
  {
  }

  lemma StepKeepsInvariant(env: Env, w: World, a: Action, w': World)
    requires Sane(env) && Invariant(env, w) && Step(env, w, a, w')
    ensures Invariant(env, w')
    ensures Extends(w.secrets, w'.secrets)
  {
    if a.Write? {
      var p := w.processes[a.id];
      UpsertEffect(p.phase.seen.nodes, p.node, env.pub(p.phase.key), p.node);
    }
    forall id | id in w'.processes ensures GoodProcess(env, w', w'.processes[id]) {
      var p := w'.processes[id];
      if id in w.processes {
        var q := w.processes[id];
        assert GoodProcess(env, w, q);
        if q.phase.Ready? {
          KeyStays(env, q.phase.seen.spec, w.secrets, w'.secrets, q.node);
        }
      }
    }
  }

  lemma {:induction false} ExecutionKeepsInvariant(env: Env, ws: seq<World>, acts: seq<Action>, i: nat)
    requires Execution(env, ws, acts) && i < |ws|
    ensures Invariant(env, ws[i])
  {
    if i > 0 {
      ExecutionKeepsInvariant(env, ws, acts, i - 1);
      StepKeepsInvariant(env, ws[i - 1], acts[i - 1], ws[i]);
    }
  }

  /** A process of node `m` writes. */
  ghost predicate WritesFor(w: World, a: Action, m: string) {
    a.Write? && a.id in w.processes && w.processes[a.id].node == m
  }

  /** The entry of `m` is the public key of `m`'s private key. */
  ghost predicate Right(env: Env, w: World, m: string) {
    var key := KeyOf(env, w.client.spec, w.secrets, m);
    key.Some? && EntryOf(w.client.nodes, m) == Some(env.pub(key.value))
  }

  /** A write by `m` makes its entry right; every other step leaves the entry alone. */
  lemma StepOnEntry(env: Env, w: World, a: Action, w': World, m: string)
    requires Invariant(env, w) && Step(env, w, a, w')
    ensures WritesFor(w, a, m) ==> Right(env, w', m) && w'.client.spec == w.client.spec
    ensures !WritesFor(w, a, m) ==> EntryOf(w'.client.nodes, m) == EntryOf(w.client.nodes, m)
  {
    if a.Write? {
      var p := w.processes[a.id];
      assert GoodProcess(env, w, p);
      UpsertEffect(p.phase.seen.nodes, p.node, env.pub(p.phase.key), m);
    }
  }

  /** The step does not edit where `m`'s private key comes from. */
  ghost predicate LeavesSource(env: Env, w: World, a: Action, m: string) {
    a.Edit? ==> SourceOf(env, a.spec, m) == SourceOf(env, w.client.spec, m)
  }

  lemma StepKeepsRight(env: Env, w: World, a: Action, w': World, m: string)
    requires Sane(env) && Invariant(env, w) && Step(env, w, a, w') && Right(env, w, m) && LeavesSource(env, w, a, m)
    ensures Right(env, w', m)
  {
    StepOnEntry(env, w, a, w', m);
    StepKeepsInvariant(env, w, a, w');
    if !WritesFor(w, a, m) {
      KeyStays(env, w.client.spec, w.secrets, w'.secrets, m);
      if a.Write? {
        assert GoodProcess(env, w, w.processes[a.id]);
      }
    }
  }

  lemma RightNext(env: Env, ws: seq<World>, acts: seq<Action>, i: nat, m: string)
    requires Execution(env, ws, acts) && i < |acts|
    requires WritesFor(ws[i], acts[i], m) || (Right(env, ws[i], m) && LeavesSource(env, ws[i], acts[i], m))
    ensures Right(env, ws[i + 1], m)
  {
    ExecutionKeepsInvariant(env, ws, acts, i);
    if WritesFor(ws[i], acts[i], m) {
      StepOnEntry(env, ws[i], acts[i], ws[i + 1], m);
    } else {
      StepKeepsRight(env, ws[i], acts[i], ws[i + 1], m);
    }
  }

  // ---------------------------------------------------------------- the main results

  /** No update is lost: between two writes of a node's own, its entry stays, whatever the other
      nodes write and whoever edits the spec; and no entry ever disappears. */
  lemma {:induction false} NoEntryIsLost(env: Env, ws: seq<World>, acts: seq<Action>, i: nat, j: nat, m: string)
    requires Execution(env, ws, acts) && i <= j < |ws|
    ensures (forall k :: i <= k < j ==> !WritesFor(ws[k], acts[k], m)) ==>
              EntryOf(ws[j].client.nodes, m) == EntryOf(ws[i].client.nodes, m)
    ensures EntryOf(ws[i].client.nodes, m).Some? ==> EntryOf(ws[j].client.nodes, m).Some?
    ensures OneEntryEach(ws[j].client.nodes)
    decreases j - i
  {
    ExecutionKeepsInvariant(env, ws, acts, j);
    if i < j {
      NoEntryIsLost(env, ws, acts, i, j - 1, m);
      ExecutionKeepsInvariant(env, ws, acts, j - 1);
      StepOnEntry(env, ws[j - 1], acts[j - 1], ws[j], m);
    }
  }

  /** Once a node has written, its entry is the public key of its private key for as long as the
      spec says the same about where that key is. */
  lemma {:induction false} WrittenStaysRight(env: Env, ws: seq<World>, acts: seq<Action>, i: nat, j: nat, m: string)
    requires Execution(env, ws, acts) && i < j < |ws| && WritesFor(ws[i], acts[i], m)
    requires forall k :: i < k < j ==> LeavesSource(env, ws[k], acts[k], m)
    ensures Right(env, ws[j], m)
    decreases j - i
  {
    if j == i + 1 {
      RightNext(env, ws, acts, i, m);
    } else {
      WrittenStaysRight(env, ws, acts, i, j - 1, m);
      RightNext(env, ws, acts, j - 1, m);
    }
  }

  /** Whoever creates a secret first has created it for good. */
  lemma {:induction false} SecretsAreFinal(env: Env, ws: seq<World>, acts: seq<Action>, i: nat, j: nat)
    requires Execution(env, ws, acts) && i <= j < |ws|
    ensures Extends(ws[i].secrets, ws[j].secrets)
    decreases j - i
  {
    if i < j {
      SecretsAreFinal(env, ws, acts, i, j - 1);
      ExecutionKeepsInvariant(env, ws, acts, j - 1);
      StepKeepsInvariant(env, ws[j - 1], acts[j - 1], ws[j]);
    }
  }

  /** The default names of two different node secrets are equal in exactly one way: the longer
      client name continues the shorter one after a dash with what the node name gives up. */
  lemma DefaultSecretsCollideIff(wgc: string, node: string, wgc2: string, node2: string)
    requires |wgc| <= |wgc2| && (wgc, node) != (wgc2, node2)
    ensures DefaultSecret(node, wgc) == DefaultSecret(node2, wgc2) <==>
            |wgc| < |wgc2| && wgc + "-" <= wgc2 && node == wgc2[|wgc| + 1..] + "-" + node2
  {
    var a, b := DefaultSecret(node, wgc), DefaultSecret(node2, wgc2);
    var n, n2 := |wgc|, |wgc2|;
    assert a[4..4 + n] == wgc && a[4 + n] == '-' && a[5 + n..] == node;
    assert b[4..4 + n2] == wgc2 && b[4 + n2] == '-' && b[5 + n2..] == node2;
    if a == b {
      assert b[4..4 + n2][..n] == b[4..4 + n];
      if n < n2 {
        assert wgc2[n] == b[4 + n];
        assert wgc + "-" == wgc2[..n + 1];
        assert node == b[5 + n..] == wgc2[n + 1..] + "-" + node2;
      }
    }
  }
}
