/** Single-key commands on a cluster (cluster/com.go, router.go, cluster_database.go): whichever member
    a client talks to, the members together behave as one standalone server. */
module Cluster {
  import opened ByteStrings
  import opened Strconv
  import opened Replies
  import opened Parser
  import opened ParserLaws
  import opened ReplyLaws
  import opened Commands
  import opened CommandLaws
  import opened Server
  import opened ConsistentHash
  import opened StandaloneDatabase

  /** A pool of client connections to one peer. */
  class ObjectPool {
    const peer: Bytes

    constructor (peer: Bytes)
      ensures this.peer == peer
    {
      this.peer := peer;
    }
  }

  /** A pool for every peer. */
  method MakePools(peers: seq<Bytes>) returns (pools: map<Bytes, ObjectPool>)
    ensures forall n :: n in pools <==> n in peers
    ensures forall n | n in pools :: fresh(pools[n]) && pools[n].peer == n
  {
    pools := map[];
    for i := 0 to |peers|
      invariant forall n :: n in pools <==> n in peers[..i]
      invariant forall n | n in pools :: fresh(pools[n]) && pools[n].peer == n
    {
      var pool := new ObjectPool(peers[i]);
      pools := pools[peers[i] := pool];
    }
  }

  class ClusterDatabase {
    const self: Bytes
    const nodes: seq<Bytes>
    const peerPicker: NodeMap
    const peerConnection: map<Bytes, ObjectPool>
    const db: Standalone

    /** The nodes are the peers and then the member itself, and it has a pool for every peer. */
    constructor (db: Standalone, hash: HashFunc, peers: seq<Bytes>, self: Bytes)
      ensures this.db == db && this.self == self && nodes == peers + [self]
      ensures fresh(peerPicker) && peerPicker.Valid() && peerPicker.hashFunc == hash
      ensures peerPicker.nodeHashMap == RingOf(hash, nodes)
      ensures forall n :: n in peerConnection <==> n in peers
      ensures forall n | n in peerConnection :: fresh(peerConnection[n]) && peerConnection[n].peer == n
    {
      hide WithNodes, HashesOf, NodeMap.Valid;
      var picker := new NodeMap(hash);
      var list: seq<Bytes> := [];
      for i := 0 to |peers|
        invariant list == peers[..i]
      {
        list := list + [peers[i]];
      }
      list := list + [self];
      picker.AddNodes(list);
      var pools := MakePools(peers);
      this.db, this.self, nodes, peerPicker, peerConnection := db, self, list, picker, pools;
    }
  }

  /** `MakeClusterDatabase`: with a standalone server of its own, which loads its log first. It is not
      `ready`, ever, when that loading does not return. */
  method MakeClusterDatabase(hash: HashFunc, peers: seq<Bytes>, self: Bytes, count: nat, appendOnly: bool,
                             content: Bytes) returns (cluster: ClusterDatabase, ready: bool)
    ensures fresh(cluster) && fresh(cluster.db) && cluster.db.Valid()
    ensures cluster.self == self && cluster.nodes == peers + [self]
    ensures cluster.peerPicker.Valid() && cluster.peerPicker.nodeHashMap == RingOf(hash, peers + [self])
    ensures forall n :: n in cluster.peerConnection <==> n in peers
    ensures var n := if count == 0 then 16 else count;
      if !appendOnly then ready && cluster.db.Stores() == FreshStores(n)
      else ready == Load(n, content).Some? && (ready ==> cluster.db.Stores() == Load(n, content).value.dbs)
  {
    hide Load;
    var db;
    db, ready := NewStandaloneDatabase(count, appendOnly, content);
    cluster := new ClusterDatabase(db, hash, peers, self);
  }

  /** The members, the hash function, and the list each member was configured with. */
  datatype Config = Config(hash: HashFunc, nodes: seq<Bytes>, lists: map<Bytes, seq<Bytes>>) {
    /** Every member knows the same nodes, in an order of its own. */
    ghost predicate Valid() {
      && nodes != [] && [] !in nodes
      && (forall n :: n in lists <==> n in nodes)
      && (forall n | n in lists :: SameNodes(lists[n], nodes))
    }
  }

  ghost predicate SameNodes(a: seq<Bytes>, b: seq<Bytes>) {
    forall n :: n in a <==> n in b
  }

  ghost function Owner(cfg: Config, key: Bytes): Bytes {
    Pick(cfg.hash, RingOf(cfg.hash, cfg.nodes), key)
  }

  lemma OwnerIsMember(cfg: Config, key: Bytes)
    requires cfg.Valid()
    ensures Owner(cfg, key) in cfg.nodes && Owner(cfg, key) in cfg.lists
  {
    var ring := RingOf(cfg.hash, cfg.nodes);
    var first := cfg.hash(cfg.nodes[0]);
    WithNodesKeys(cfg.hash, map[], cfg.nodes, first);
    assert At(cfg.hash, cfg.nodes, 0, first);
    assert first in ring;
    var s := Successor(ring.Keys, cfg.hash(key));
    assert s in ring;
    WithNodesKeys(cfg.hash, map[], cfg.nodes, s);
  }

  /** Without colliding names, every member computes the same owner from its own list. */
  lemma MembersAgree(cfg: Config, node: Bytes, key: Bytes)
    requires cfg.Valid() && Distinct(cfg.hash, cfg.nodes) && node in cfg.lists
    ensures Pick(cfg.hash, RingOf(cfg.hash, cfg.lists[node]), key) == Owner(cfg, key)
  {
    assert SameNodes(cfg.lists[node], cfg.nodes);
    OrderIsIrrelevant(cfg.hash, cfg.nodes, cfg.lists[node]);
  }

  /** The databases of every member. */
  type Net = map<Bytes, seq<Store>>

  ghost predicate NetValid(cfg: Config, net: Net, count: nat) {
    && 0 < count <= INT64_MAX
    && (forall n :: n in net <==> n in cfg.lists)
    && (forall n | n in net :: |net[n]| == count)
  }

  /** What serving a command leads to; `forwards` is how often the command itself was sent on. */
  datatype Served = Served(net: Net, selected: nat, reply: Reply, forwards: nat)

  /** The commands a member serves by itself. */
  predicate OnTheSpot(name: Bytes) {
    name == SELECT || name == Name(Ping)
  }

  /** The commands that go to every member. */
  predicate ToAll(c: Command) {
    c.Del? || c.FlushDb?
  }

  predicate Renames(c: Command) {
    c.Rename? || c.Renamenx?
  }

  /** The commands `makeRouter` sends to `defaultFunc`. */
  predicate ToOwner(c: Command) {
    c.Exists? || c.Get? || c.Type? || c.Put? || c.Setnx? || c.Getset?
  }

  function RoutedByKey(name: Bytes): Option<Command> {
    match Lookup(name)
    case Some(c) => if ToOwner(c) then Some(c) else None
    case None => None
  }

  const SELECT_CMD: Bytes := [83, 69, 76, 69, 67, 84]   // SELECT in capitals, as relay sends it

  /** A command executed by a member's own standalone database. */
  ghost function Local(net: Net, node: Bytes, selected: nat, line: CmdLine): Option<Served>
    requires node in net && selected < |net[node]| && line != []
  {
    var e := Exec(net[node], selected, line);
    if e.answer.One? then Some(Served(net[node := e.dbs], e.selected, e.answer.reply, 0)) else None
  }

  /** `ClusterDatabase.Exec` at member `node`, for a connection that has `selected` chosen. None when
      the exchange with a peer breaks down, or when more than `hops` forwards in a row would be
      needed. A connection borrowed for forwarding may have any database selected from before:
      `prior`. */
  ghost function Serve(cfg: Config, net: Net, count: nat, node: Bytes, selected: nat, prior: nat, line: CmdLine,
                       hops: nat): (r: Option<Served>)
    requires cfg.Valid() && NetValid(cfg, net, count) && node in net && selected < count && prior < count && line != []
    ensures r.Some? ==> NetValid(cfg, r.value.net, count) && r.value.selected < count
    decreases hops, 2, 0
  {
    var name := ToLower(line[0]);
    if OnTheSpot(name) then Local(net, node, selected, line)
    else if RoutedByKey(name).Some? then
      if |line| < 2 then Some(Served(net, selected, UnknownError, 0))   // the index panic is recovered
      else
        Relay(cfg, net, count, node, Pick(cfg.hash, RingOf(cfg.hash, cfg.lists[node]), line[1]),
              selected, prior, line, hops)
    else if Lookup(name).Some? && Renames(Lookup(name).value) then
      if |line| != 3 then Some(Served(net, selected, ArgNumError(Name(Rename)), 0))
      else
        var ring := RingOf(cfg.hash, cfg.lists[node]);
        if Pick(cfg.hash, ring, line[1]) != Pick(cfg.hash, ring, line[2]) then
          Some(Served(net, selected, Error(Ascii("ERR cross slot rename is not allowed")), 0))
        else Relay(cfg, net, count, node, line[2], selected, prior, line, hops)   // to the key, not to its owner
    else if Lookup(name).Some? && ToAll(Lookup(name).value) then
      Broadcast(cfg, net, count, node, cfg.lists[node], selected, prior, line, hops)
    else Some(Served(net, selected, Error(Ascii("ERR unknown command '") + name + Ascii("'")), 0))
  }

  /** `boardcast` to the nodes of a list, one after the other, with the last one's reply. A member that is
      alone gets that one reply only; with others there is nothing to gather: see
      BroadcastNeverReturns. */
  ghost function Broadcast(cfg: Config, net: Net, count: nat, node: Bytes, peers: seq<Bytes>, selected: nat, prior: nat,
                           line: CmdLine, hops: nat): (r: Option<Served>)
    requires cfg.Valid() && NetValid(cfg, net, count) && node in net && selected < count && prior < count && line != []
    ensures r.Some? ==> NetValid(cfg, r.value.net, count) && r.value.selected < count
    decreases hops, 1, |peers|
  {
    if peers == [] then Some(Served(net, selected, Ok, 0))
    else
      match Relay(cfg, net, count, node, peers[0], selected, prior, line, hops)
      case None => None
      case Some(first) =>
        if |peers| == 1 then Some(first)
        else Broadcast(cfg, first.net, count, node, peers[1..], selected, prior, line, hops)
  }

  /** `relay`: on the spot for the member itself; otherwise a SELECT and the command to the peer. */
  ghost function Relay(cfg: Config, net: Net, count: nat, node: Bytes, peer: Bytes, selected: nat, prior: nat,
                       line: CmdLine, hops: nat): (r: Option<Served>)
    requires cfg.Valid() && NetValid(cfg, net, count) && node in net && selected < count && prior < count && line != []
    ensures r.Some? ==> NetValid(cfg, r.value.net, count) && r.value.selected < count
    decreases hops, 0, 0
  {
    if peer == node then Local(net, node, selected, line)
    else if peer !in net then
      Some(Served(net, selected, Error(Ascii("relay failedgetPeerClient connection not found")), 0))
    else if hops == 0 then None
    else
      match Send(cfg, net, count, peer, prior, prior, [SELECT_CMD, Itoa(selected)], hops - 1)
      case None => None
      case Some(first) =>
        match Send(cfg, first.net, count, peer, first.selected, prior, line, hops - 1)
        case None => None
        case Some(second) => Some(Served(second.net, selected, second.reply, second.forwards + 1))
  }

  /** `Client.Send` over a borrowed connection: the command as bytes, through the peer's parser and
      its `Exec`, and the reply's bytes through the client's parser. */
  ghost function Send(cfg: Config, net: Net, count: nat, peer: Bytes, selected: nat, prior: nat, cmd: CmdLine,
                      hops: nat): (r: Option<Served>)
    requires cfg.Valid() && NetValid(cfg, net, count) && peer in net && selected < count && prior < count
    ensures r.Some? ==> NetValid(cfg, r.value.net, count) && r.value.selected < count
    decreases hops, 3, 0
  {
    var arrived := Feed(REST, Print(cmd));
    if arrived.out == [] || !arrived.out[0].Data? || !arrived.out[0].reply.MultiBulk?
       || arrived != Waiting([Data(arrived.out[0].reply)], REST, []) || arrived.out[0].reply.args == [] then None
    else
      match Serve(cfg, net, count, peer, selected, prior, arrived.out[0].reply.args, hops)
      case None => None
      case Some(served) =>
        var back := Feed(REST, ToBytes(served.reply));
        if back.out == [] || !back.out[0].Data? || back != Waiting([Data(back.out[0].reply)], REST, []) then None
        else Some(served.(reply := back.out[0].reply))
  }

  /** A key's entry. */
  function Entry(store: Store, key: Bytes): Option<Entity> {
    if key in store then Some(store[key]) else None
  }

  /** The members hold, between them, exactly the databases `whole`: each key at its owner only. */
  ghost predicate Represents(cfg: Config, net: Net, whole: seq<Store>) {
    && NetValid(cfg, net, |whole|)
    && forall n, d: nat, k | n in net && d < |whole| :: KeptByOwner(cfg, net, whole, n, d, k)
  }

  /** Member `n` has of key `k` in database `d` what `whole` has, when it owns the key, or nothing. */
  ghost predicate KeptByOwner(cfg: Config, net: Net, whole: seq<Store>, n: Bytes, d: nat, k: Bytes)
    requires NetValid(cfg, net, |whole|) && n in net && d < |whole|
  {
    Entry(net[n][d], k) == if Owner(cfg, k) == n then Entry(whole[d], k) else None
  }

  /** What the parser can produce as an argument, and so what can be stored. */
  predicate Storable(v: Bytes) {
    |v| <= MAX_ARG && (v == [] || v[0] != DOLLAR)
  }

  predicate StoredValues(store: Store) {
    forall k | k in store :: store[k].Text? && Storable(store[k].value)
  }

  predicate AllStored(whole: seq<Store>) {
    forall d | 0 <= d < |whole| :: StoredValues(whole[d])
  }

  /** The reply of a routed command to a key with that entry. */
  function RoutedReply(c: Command, entry: Option<Entity>): Reply {
    match c
    case Exists => Int(if entry.Some? then 1 else 0)
    case Type => if entry.None? then Status(Ascii("none")) else if entry.value.Text? then Status(Ascii("string"))
                 else UnknownError
    case Put => Ok
    case Setnx => Int(if entry.None? then 1 else 0)
    case _ => if entry.Some? then BulkOf(entry.value) else NullBulk
  }

  /** The entry it leaves there. */
  function RoutedEntry(c: Command, entry: Option<Entity>, args: CmdLine): Option<Entity> {
    if |args| >= 2 && (c.Put? || c.Getset? || (c.Setnx? && entry.None?)) then Some(Text(args[1])) else entry
  }

  lemma RoutedAnswer(c: Command, store: Store, args: CmdLine)
    requires ToOwner(c) && ValidateArity(Arity(c), |args| + 1) && (c.Exists? ==> |args| == 1)
    ensures Execute(c, store, args).answer == One(RoutedReply(c, Entry(store, args[0])))
  {
    hide Name, Ascii, BulkOf, CountPresent, KeySet, MatchingKeys;
    if c.Exists? {
      OnePresent(store, args);
    }
  }

  lemma OnePresent(store: Store, args: CmdLine)
    requires |args| == 1
    ensures CountPresent(store, args) == if args[0] in store then 1 else 0
  {
    assert args[..0] == [];
    assert CountPresent(store, args[..0]) == 0;
  }

  lemma RoutedStore(c: Command, store: Store, args: CmdLine)
    requires ToOwner(c) && ValidateArity(Arity(c), |args| + 1)
    ensures var after := Execute(c, store, args).store;
      && Entry(after, args[0]) == RoutedEntry(c, Entry(store, args[0]), args)
      && forall k | k != args[0] :: Entry(after, k) == Entry(store, k)
  {
    hide Name, Ascii, BulkOf, CountPresent, KeySet, MatchingKeys;
  }

  /** A routed command looks at and changes one key. */
  lemma KeyIsAllThatMatters(c: Command, a: Store, b: Store, args: CmdLine)
    requires ToOwner(c)
    requires ValidateArity(Arity(c), |args| + 1) && (c.Exists? ==> |args| == 1)
    requires Entry(a, args[0]) == Entry(b, args[0])
    ensures var ea, eb := Execute(c, a, args), Execute(c, b, args);
      && ea.answer == eb.answer && ea.answer.One?
      && Entry(ea.store, args[0]) == Entry(eb.store, args[0])
      && (forall k | k != args[0] :: Entry(ea.store, k) == Entry(a, k))
      && (forall k | k != args[0] :: Entry(eb.store, k) == Entry(b, k))
  {
    hide Execute, Entry, RoutedReply, RoutedEntry;
    RoutedAnswer(c, a, args);
    RoutedAnswer(c, b, args);
    RoutedStore(c, a, args);
    RoutedStore(c, b, args);
  }

  /** Its reply travels unless it is an empty bulk, and the values it stores are storable. */
  lemma RoutedReplyTravels(c: Command, store: Store, args: CmdLine)
    requires ToOwner(c)
    requires ValidateArity(Arity(c), |args| + 1) && (c.Exists? ==> |args| == 1)
    requires StoredValues(store) && forall i | 0 <= i < |args| :: Storable(args[i])
    ensures StoredValues(Execute(c, store, args).store)
    ensures var a := Execute(c, store, args).answer; a.One? && (Travels(a.reply) <==> a.reply != Bulk([]))
  {
    RoutedAnswer(c, store, args);
    RoutedStore(c, store, args);
    hide Execute, RoutedReply, Storable;
    forall k | k in Execute(c, store, args).store
      ensures Execute(c, store, args).store[k].Text? && Storable(Execute(c, store, args).store[k].value)
    {
      assert Entry(Execute(c, store, args).store, k).Some?;
    }
    RoutedTravels(c, Entry(store, args[0]));
  }

  lemma RoutedTravels(c: Command, entry: Option<Entity>)
    requires ToOwner(c) && (entry.Some? ==> entry.value.Text? && Storable(entry.value.value))
    ensures Travels(RoutedReply(c, entry)) <==> RoutedReply(c, entry) != Bulk([])
  {
    hide Ascii;
    TypeTextsTravel();
    NullTravels();
    hide Travels;
    if entry.Some? {
      StoredTravels(entry.value);
    }
  }

  lemma StoredTravels(e: Entity)
    requires e.Text? && Storable(e.value)
    ensures Travels(BulkOf(e)) <==> BulkOf(e) != Bulk([])
  {
  }

  lemma NullTravels()
    ensures Travels(NullBulk) && Travels(Ok) && Travels(UnknownError) && Travels(Int(0)) && Travels(Int(1))
  {
  }

  lemma TypeTextsTravel()
    ensures Travels(Status(Ascii("none"))) && Travels(Status(Ascii("string")))
  {
    hide Ascii;
    assert LF !in Ascii("none") && LF !in Ascii("string");
  }

  /** The six commands for one key, by name. */
  predicate OneKey(w: Bytes) {
    || Spelt(w, "get") || Spelt(w, "set") || Spelt(w, "setnx") || Spelt(w, "getset") || Spelt(w, "type")
    || Spelt(w, "exists")
  }

  /** The commands the result covers: one key, in a shape a client can send. */
  predicate Routable(line: CmdLine) {
    Parsed(line) && |line| >= 2 && OneKey(line[0]) && (Spelt(line[0], "exists") ==> |line| == 2)
  }

  /** The router sends exactly these to the owner of their key. */
  lemma RoutedExactly(w: Bytes)
    ensures RoutedByKey(ToLower(w)).Some? <==> OneKey(w)
    ensures RoutedByKey(ToLower(w)) == Some(Exists) <==> Spelt(w, "exists")
  {
    hide ToLower, Name, Ascii, Spelt, Lookup;
    NamedExactly(w, Get);
    NamedExactly(w, Put);
    NamedExactly(w, Setnx);
    NamedExactly(w, Getset);
    NamedExactly(w, Type);
    NamedExactly(w, Exists);
  }

  /** A name is a command's exactly when it is spelt like it. */
  lemma NamedExactly(w: Bytes, c: Command)
    ensures Lookup(ToLower(w)) == Some(c) <==> Spelt(w, Word(c))
  {
    NameIsWord(c);
    NameIsRegistered(c);
    SpeltExactly(w, Word(c));
    hide ToLower, Ascii, Word, Spelt, Name, Lookup;
  }

  lemma OnTheSpotExactly(w: Bytes)
    ensures OnTheSpot(ToLower(w)) <==> Spelt(w, "select") || Spelt(w, "ping")
  {
    NameIsWord(Ping);
    SpeltExactly(w, "ping");
    SpeltExactly(w, "select");
    SelectText();
    hide ToLower, Ascii, Spelt, Name;
  }

  /** The same command on the single server. */
  lemma OnWhole(whole: seq<Store>, selected: nat, line: CmdLine)
    requires selected < |whole| && Routable(line) && AllStored(whole)
    ensures var e := Exec(whole, selected, line);
      && e.selected == selected && AllStored(e.dbs)
      && e.answer.One? && (Travels(e.answer.reply) <==> e.answer.reply != Bulk([]))
  {
    hide Execute, Travels, ToLower, StoredValues, Storable, RoutedByKey, Lookup;
    NotSelect(line);
    DbOnWhole(whole[selected], line);
  }

  lemma DbOnWhole(store: Store, line: CmdLine)
    requires Routable(line) && StoredValues(store)
    ensures var e := ExecDb(store, line);
      && StoredValues(e.store)
      && e.answer.One? && (Travels(e.answer.reply) <==> e.answer.reply != Bulk([]))
  {
    hide Execute, Travels, ToLower, StoredValues, OneKey, Spelt;
    NotSelect(line);
    var name := ToLower(line[0]);
    var c := RoutedByKey(name).value;
    if ValidateArity(Arity(c), |line|) {
      RoutedReplyTravels(c, store, line[1..]);
    } else {
      ArgNumTravels(c);
    }
  }

  lemma ArgNumTravels(c: Command)
    ensures Travels(ArgNumError(Name(c)))
  {
  }

  lemma NotSelect(line: CmdLine)
    requires Routable(line)
    ensures ToLower(line[0]) != SELECT && !OnTheSpot(ToLower(line[0])) && RoutedByKey(ToLower(line[0])).Some?
    ensures RoutedByKey(ToLower(line[0])) == Some(Exists) ==> |line| == 2
  {
    hide ToLower, OneKey, Spelt;
    RoutedExactly(line[0]);
    NameIsRegistered(RoutedByKey(ToLower(line[0])).value);
  }

  lemma SameEffect(a: Store, b: Store, line: CmdLine)
    requires Routable(line) && Entry(a, line[1]) == Entry(b, line[1])
    ensures var ea, eb := ExecDb(a, line), ExecDb(b, line);
      && ea.answer == eb.answer && ea.answer.One?
      && Entry(ea.store, line[1]) == Entry(eb.store, line[1])
      && (forall k | k != line[1] :: Entry(ea.store, k) == Entry(a, k))
      && (forall k | k != line[1] :: Entry(eb.store, k) == Entry(b, k))
  {
    hide Execute, ToLower, Entry, OneKey, Spelt;
    NotSelect(line);
    var c := RoutedByKey(ToLower(line[0])).value;
    if ValidateArity(Arity(c), |line|) {
      assert line[1..][0] == line[1];
      KeyIsAllThatMatters(c, a, b, line[1..]);
    }
  }

  /** Served on the spot, with the single server's answer, by a cluster that still represents it. */
  ghost predicate AsWhole(cfg: Config, l: Option<Served>, e: Executed) {
    && l.Some? && e.answer.One?
    && l.value.reply == e.answer.reply && l.value.selected == e.selected && l.value.forwards == 0
    && Represents(cfg, l.value.net, e.dbs)
  }

  lemma HasKey(line: CmdLine)
    requires Routable(line)
    ensures |line| >= 2
  {
  }

  /** The owner's own database answers like the single server, and goes on representing it. */
  lemma OwnerActsLikeWhole(cfg: Config, net: Net, whole: seq<Store>, selected: nat, line: CmdLine)
    requires cfg.Valid() && Represents(cfg, net, whole) && selected < |whole| && Routable(line)
    ensures Owner(cfg, line[1]) in net
    ensures AsWhole(cfg, Local(net, Owner(cfg, line[1]), selected, line), Exec(whole, selected, line))
  {
    hide ExecDb, Owner, ToLower, RoutedByKey;
    Represented(cfg, net, whole);
    var owner := Owner(cfg, line[1]);
    OwnerIsMember(cfg, line[1]);
    var a, b := net[owner][selected], whole[selected];
    assert KeptByOwner(cfg, net, whole, owner, selected, line[1]);
    NotSelect(line);
    SameEffect(a, b, line);
    OneKeyChanged(cfg, net, whole, selected, line[1], ExecDb(a, line).store, ExecDb(b, line).store);
  }

  /** Changing one key at its owner and in `whole` alike keeps the partition. */
  lemma OneKeyChanged(cfg: Config, net: Net, whole: seq<Store>, selected: nat, key: Bytes, a: Store, b: Store)
    requires cfg.Valid() && Represents(cfg, net, whole) && selected < |whole| && Owner(cfg, key) in net
    requires Entry(a, key) == Entry(b, key)
    requires forall k | k != key :: Entry(a, k) == Entry(net[Owner(cfg, key)][selected], k)
    requires forall k | k != key :: Entry(b, k) == Entry(whole[selected], k)
    ensures var owner := Owner(cfg, key);
      Represents(cfg, net[owner := net[owner][selected := a]], whole[selected := b])
  {
    hide Owner, Entry;
    var owner := Owner(cfg, key);
    var net', whole' := net[owner := net[owner][selected := a]], whole[selected := b];
    assert NetValid(cfg, net', |whole'|);
    forall n, d: nat, k | n in net' && d < |whole'| ensures KeptByOwner(cfg, net', whole', n, d, k) {
      assert KeptByOwner(cfg, net, whole, n, d, k);
    }
  }

  lemma Represented(cfg: Config, net: Net, whole: seq<Store>)
    requires Represents(cfg, net, whole)
    ensures NetValid(cfg, net, |whole|)
    ensures forall n :: n in net <==> n in cfg.lists
  {
  }

  /** A member that is not down, with valid selections on both connections. */
  ghost predicate Reachable(cfg: Config, net: Net, count: nat, node: Bytes, selected: nat, prior: nat) {
    cfg.Valid() && NetValid(cfg, net, count) && node in net && selected < count && prior < count
  }

  lemma Arrives(cmd: CmdLine)
    requires WireSafe(cmd)
    ensures Feed(REST, Print(cmd)) == Waiting([Data(MultiBulk(cmd))], REST, [])
  {
    hide Feed, Print;
    CommandRoundTrip(cmd, []);
    NothingReceived();
    assert Print(cmd) + [] == Print(cmd);
  }

  lemma ComesBack(r: Reply)
    requires Travels(r)
    ensures Feed(REST, ToBytes(r)) == Waiting([Data(Received(r))], REST, [])
  {
    hide Feed, ToBytes, Received, Travels;
    ReplyTravels(r, []);
    NothingReceived();
    assert ToBytes(r) + [] == ToBytes(r);
  }

  /** What `Send` comes to, when the command arrives and the reply comes back. */
  lemma SendServed(cfg: Config, net: Net, count: nat, peer: Bytes, selected: nat, prior: nat, cmd: CmdLine, hops: nat,
                   served: Served, r: Reply)
    requires Reachable(cfg, net, count, peer, selected, prior) && cmd != []
    requires Feed(REST, Print(cmd)) == Waiting([Data(MultiBulk(cmd))], REST, [])
    requires Serve(cfg, net, count, peer, selected, prior, cmd, hops) == Some(served)
    requires Feed(REST, ToBytes(served.reply)) == Waiting([Data(r)], REST, [])
    ensures Send(cfg, net, count, peer, selected, prior, cmd, hops) == Some(served.(reply := r))
  {
    hide Feed, ToBytes, Serve, Print;
  }

  /** What it comes to when the command kills the peer's parser. */
  lemma SendKills(cfg: Config, net: Net, count: nat, peer: Bytes, selected: nat, prior: nat, cmd: CmdLine, hops: nat)
    requires Reachable(cfg, net, count, peer, selected, prior)
    requires Parsed(cmd) && !NoEmpty(cmd)
    ensures Send(cfg, net, count, peer, selected, prior, cmd, hops) == None
  {
    hide Feed, Serve, Print, Parsed, NoEmpty;
    EmptyArgumentKills(cmd, []);
    assert Print(cmd) + [] == Print(cmd);
  }

  /** And when the reply is an empty bulk, which never ends its line. */
  lemma SendHangs(cfg: Config, net: Net, count: nat, peer: Bytes, selected: nat, prior: nat, cmd: CmdLine, hops: nat)
    requires Reachable(cfg, net, count, peer, selected, prior) && WireSafe(cmd)
    requires var s := Serve(cfg, net, count, peer, selected, prior, cmd, hops); s.Some? && s.value.reply == Bulk([])
    ensures Send(cfg, net, count, peer, selected, prior, cmd, hops) == None
  {
    Arrives(cmd);
    EmptyBulkReplyHangs();
    hide Feed, ToBytes, Serve, Print, WireSafe;
  }

  lemma SendSelect(cfg: Config, net: Net, count: nat, peer: Bytes, selected: nat, prior: nat, db: nat, hops: nat)
    requires Reachable(cfg, net, count, peer, selected, prior) && db < count
    ensures Send(cfg, net, count, peer, selected, prior, [SELECT_CMD, Itoa(db)], hops)
            == Some(Served(net, db, Received(Ok), 0))
  {
    hide Feed, ToBytes, Received, Itoa, Print, Send;
    var cmd := [SELECT_CMD, Itoa(db)];
    SelectCmdIsSafe(db);
    Arrives(cmd);
    ComesBack(Ok);
    ServeSelect(cfg, net, count, peer, selected, prior, db, hops);
    SendServed(cfg, net, count, peer, selected, prior, cmd, hops, Served(net, db, Ok, 0), Received(Ok));
  }

  lemma ServeSelect(cfg: Config, net: Net, count: nat, peer: Bytes, selected: nat, prior: nat, db: nat, hops: nat)
    requires Reachable(cfg, net, count, peer, selected, prior) && db < count
    ensures Serve(cfg, net, count, peer, selected, prior, [SELECT_CMD, Itoa(db)], hops) == Some(Served(net, db, Ok, 0))
  {
    hide Itoa, ParseInt, ToLower, Relay, Broadcast, RoutedByKey, Lookup, ExecDb;
    SelectCmdIsSafe(db);
    ParseIntOfItoa(db);
    assert net[peer := net[peer]] == net;
  }

  lemma SelectCmdIsSafe(db: nat)
    requires db <= INT64_MAX
    ensures WireSafe([SELECT_CMD, Itoa(db)]) && ToLower(SELECT_CMD) == SELECT
  {
    assert IsDigit(Digits(db)[0]);
    var cmd := [SELECT_CMD, Itoa(db)];
    assert SafeArg(cmd[0]) && SafeArg(cmd[1]);
  }

  lemma ServeRouted(cfg: Config, net: Net, count: nat, node: Bytes, selected: nat, prior: nat, line: CmdLine, hops: nat)
    requires Reachable(cfg, net, count, node, selected, prior) && Distinct(cfg.hash, cfg.nodes)
    requires Routable(line)
    ensures Serve(cfg, net, count, node, selected, prior, line, hops)
            == Relay(cfg, net, count, node, Owner(cfg, line[1]), selected, prior, line, hops)
    ensures Owner(cfg, line[1]) == node ==>
              Serve(cfg, net, count, node, selected, prior, line, hops) == Local(net, node, selected, line)
  {
    hide ToLower, Owner, Local, Send, Broadcast, RoutedByKey;
    NotSelect(line);
    MembersAgree(cfg, node, line[1]);
  }

  /** A relay whose SELECT is answered comes to what sending the command comes to, and one forward. */
  lemma RelayAway(cfg: Config, net: Net, count: nat, node: Bytes, peer: Bytes, selected: nat, prior: nat, line: CmdLine,
                  hops: nat)
    requires Reachable(cfg, net, count, node, selected, prior) && peer in net && peer != node
    requires line != [] && hops >= 1
    ensures var s := Send(cfg, net, count, peer, selected, prior, line, hops - 1);
      Relay(cfg, net, count, node, peer, selected, prior, line, hops)
      == if s.Some? then Some(Served(s.value.net, selected, s.value.reply, s.value.forwards + 1)) else None
  {
    hide Send, Itoa;
    SendSelect(cfg, net, count, peer, prior, prior, selected, hops - 1);
  }

  /** The reply a client of the cluster gets is, byte for byte, the single server's, except that a
      value fetched from another member comes as a one-element array. */
  predicate SameReply(cluster: Reply, single: Reply) {
    ToBytes(cluster) == ToBytes(single) || (single.Bulk? && cluster == MultiBulk([single.arg]))
  }

  lemma ReceivedIsSame(r: Reply)
    ensures SameReply(Received(r), r) && SameReply(r, r)
  {
    hide Ascii;
  }

  /** Served with one forward at most, like the single server, which the members still represent. */
  ghost predicate LikeWhole(cfg: Config, s: Option<Served>, e: Executed) {
    && s.Some? && e.answer.One?
    && s.value.forwards <= 1 && s.value.selected == e.selected
    && Represents(cfg, s.value.net, e.dbs) && AllStored(e.dbs)
    && SameReply(s.value.reply, e.answer.reply)
  }

  lemma ServedOnTheSpot(cfg: Config, l: Option<Served>, e: Executed)
    requires AsWhole(cfg, l, e) && AllStored(e.dbs)
    ensures LikeWhole(cfg, l, e)
  {
    hide Represents, AllStored, SameReply;
    ReceivedIsSame(e.answer.reply);
  }

  lemma ServedByPeer(cfg: Config, l: Option<Served>, e: Executed)
    requires AsWhole(cfg, l, e) && AllStored(e.dbs)
    ensures LikeWhole(cfg, Some(Served(l.value.net, e.selected, Received(l.value.reply), 1)), e)
  {
    hide Represents, AllStored, SameReply;
    ReceivedIsSame(e.answer.reply);
  }

  /** The condition under which a member can serve a routed command: the key is its own, or neither an
      argument nor the value to be fetched is empty. */
  ghost predicate Forwardable(cfg: Config, whole: seq<Store>, node: Bytes, selected: nat, line: CmdLine)
    requires selected < |whole| && |line| >= 2
  {
    Owner(cfg, line[1]) == node || (NoEmpty(line) && Exec(whole, selected, line).answer != One(Bulk([])))
  }

  /** Everything the results on routed commands start from. */
  ghost predicate Ready(cfg: Config, net: Net, whole: seq<Store>, node: Bytes, selected: nat, prior: nat) {
    && cfg.Valid() && Distinct(cfg.hash, cfg.nodes)
    && Represents(cfg, net, whole) && AllStored(whole)
    && node in net && selected < |whole| && prior < |whole|
  }

  lemma ReadyIsReachable(cfg: Config, net: Net, whole: seq<Store>, node: Bytes, selected: nat, prior: nat)
    requires Ready(cfg, net, whole, node, selected, prior)
    ensures Reachable(cfg, net, |whole|, node, selected, prior)
  {
  }

  /** Sending a routed command to the key's owner. */
  lemma SendToOwner(cfg: Config, net: Net, whole: seq<Store>, selected: nat, prior: nat, line: CmdLine, hops: nat)
    requires Routable(line) && Ready(cfg, net, whole, Owner(cfg, line[1]), selected, prior)
    ensures Reachable(cfg, net, |whole|, Owner(cfg, line[1]), selected, prior)
    ensures var l := Local(net, Owner(cfg, line[1]), selected, line);
      var e := Exec(whole, selected, line);
      Send(cfg, net, |whole|, Owner(cfg, line[1]), selected, prior, line, hops)
      == if NoEmpty(line) && e.answer != One(Bulk([])) && l.Some?
         then Some(l.value.(reply := Received(l.value.reply))) else None
  {
    hide Feed, ToBytes, Received, Travels, Represents, AllStored, Exec, Local, Serve, Send, Owner, NoEmpty, WireSafe;
    hide RoutedByKey, ToLower;
    var owner := Owner(cfg, line[1]);
    ReadyIsReachable(cfg, net, whole, owner, selected, prior);
    OwnerActsLikeWhole(cfg, net, whole, selected, line);
    OnWhole(whole, selected, line);
    ServeRouted(cfg, net, |whole|, owner, selected, prior, line, hops);
    ParsedIsSafe(line);
    var served := Local(net, owner, selected, line).value;
    if !NoEmpty(line) {
      SendKills(cfg, net, |whole|, owner, selected, prior, line, hops);
    } else if served.reply == Bulk([]) {
      SendHangs(cfg, net, |whole|, owner, selected, prior, line, hops);
    } else {
      Arrives(line);
      ComesBack(served.reply);
      SendServed(cfg, net, |whole|, owner, selected, prior, line, hops, served, Received(served.reply));
    }
  }

  /** A routed command at another member than its key's owner. */
  lemma RoutedElsewhere(cfg: Config, net: Net, whole: seq<Store>, node: Bytes, selected: nat, prior: nat, line: CmdLine,
                        hops: nat)
    requires Ready(cfg, net, whole, node, selected, prior) && Routable(line) && hops >= 1
    requires Owner(cfg, line[1]) != node
    ensures Reachable(cfg, net, |whole|, node, selected, prior)
    ensures var s := Serve(cfg, net, |whole|, node, selected, prior, line, hops);
      var e := Exec(whole, selected, line);
      if Forwardable(cfg, whole, node, selected, line) then LikeWhole(cfg, s, e) else s == None
  {
    hide Received, Represents, AllStored, Exec, Local, Serve, Send, Relay, Owner, NoEmpty, LikeWhole, Parsed;
    hide RoutedByKey, ToLower;
    var owner := Owner(cfg, line[1]);
    ReadyIsReachable(cfg, net, whole, node, selected, prior);
    OwnerActsLikeWhole(cfg, net, whole, selected, line);
    var l := Local(net, owner, selected, line);
    OnWhole(whole, selected, line);
    SendToOwner(cfg, net, whole, selected, prior, line, hops - 1);
    ServeRouted(cfg, net, |whole|, node, selected, prior, line, hops);
    RelayAway(cfg, net, |whole|, node, owner, selected, prior, line, hops);
    ServedByPeer(cfg, l, Exec(whole, selected, line));
  }

  /** A routed command that clients can send, through any member of a cluster without colliding names:
      when it can be served it is forwarded at most once and acts and answers like the single server;
      when not, because an argument or the value would have to travel empty, the exchange with the
      owner breaks down. */
  lemma RoutedCommand(cfg: Config, net: Net, whole: seq<Store>, node: Bytes, selected: nat, prior: nat, line: CmdLine,
                      hops: nat)
    requires Ready(cfg, net, whole, node, selected, prior) && Routable(line) && hops >= 1
    ensures Reachable(cfg, net, |whole|, node, selected, prior)
    ensures var s := Serve(cfg, net, |whole|, node, selected, prior, line, hops);
      var e := Exec(whole, selected, line);
      if Forwardable(cfg, whole, node, selected, line) then LikeWhole(cfg, s, e) else s == None
  {
    hide Represents, AllStored, Exec, Local, Serve, Owner, NoEmpty, LikeWhole, AsWhole, Parsed, RoutedByKey, ToLower;
    ReadyIsReachable(cfg, net, whole, node, selected, prior);
    if Owner(cfg, line[1]) == node {
      OwnerActsLikeWhole(cfg, net, whole, selected, line);
      OnWhole(whole, selected, line);
      ServeRouted(cfg, net, |whole|, node, selected, prior, line, hops);
      ServedOnTheSpot(cfg, Local(net, node, selected, line), Exec(whole, selected, line));
    } else {
      RoutedElsewhere(cfg, net, whole, node, selected, prior, line, hops);
    }
  }

  /** The twelve names the router knows. */
  const ROUTES: seq<string> := ["exists", "del", "get", "type", "set", "setnx", "getset", "ping", "rename", "renamenx",
                                "flushdb", "select"]

  predicate IsRoute(w: Bytes) {
    exists i | 0 <= i < |ROUTES| :: Spelt(w, ROUTES[i])
  }

  /** Any other name, STRLEN and KEYS among them, is unknown to a cluster, and nothing is done. */
  lemma UnknownToCluster(cfg: Config, net: Net, count: nat, node: Bytes, selected: nat, prior: nat, line: CmdLine,
                         hops: nat)
    requires Reachable(cfg, net, count, node, selected, prior) && line != [] && !IsRoute(line[0])
    ensures Serve(cfg, net, count, node, selected, prior, line, hops)
            == Some(Served(net, selected, Error(Ascii("ERR unknown command '") + ToLower(line[0]) + Ascii("'")), 0))
  {
    NotRouted(line[0]);
    hide ToLower, Ascii, RoutedByKey, OnTheSpot, ToAll, Renames, IsRoute, Relay, Broadcast, Lookup, Local;
  }

  lemma NotRouted(w: Bytes)
    requires !IsRoute(w)
    ensures var name := ToLower(w);
      && !OnTheSpot(name) && RoutedByKey(name).None?
      && (Lookup(name).Some? ==> !Renames(Lookup(name).value) && !ToAll(Lookup(name).value))
  {
    hide ToLower, Ascii, Spelt, Lookup, Name;
    NotSpelt(w);
    hide IsRoute;
    OnTheSpotExactly(w);
    RoutedExactly(w);
    NamedExactly(w, Rename);
    NamedExactly(w, Renamenx);
    NamedExactly(w, Del);
    NamedExactly(w, FlushDb);
  }

  lemma NotSpelt(w: Bytes)
    requires !IsRoute(w)
    ensures !Spelt(w, "select") && !Spelt(w, "ping") && !OneKey(w)
    ensures !Spelt(w, "rename") && !Spelt(w, "renamenx") && !Spelt(w, "del") && !Spelt(w, "flushdb")
  {
    hide Spelt;
    assert forall i | 0 <= i < |ROUTES| :: !Spelt(w, ROUTES[i]);
    assert ROUTES[0] == "exists" && ROUTES[1] == "del" && ROUTES[2] == "get" && ROUTES[3] == "type";
    assert ROUTES[4] == "set" && ROUTES[5] == "setnx" && ROUTES[6] == "getset" && ROUTES[7] == "ping";
    assert ROUTES[8] == "rename" && ROUTES[9] == "renamenx" && ROUTES[10] == "flushdb" && ROUTES[11] == "select";
  }

  /** A command for one key without the key is an index panic, answered as an unknown error. */
  lemma MissingKey(cfg: Config, net: Net, count: nat, node: Bytes, selected: nat, prior: nat, w: Bytes, hops: nat)
    requires Reachable(cfg, net, count, node, selected, prior) && OneKey(w)
    ensures Serve(cfg, net, count, node, selected, prior, [w], hops) == Some(Served(net, selected, UnknownError, 0))
  {
    RoutedExactly(w);
    NotOnTheSpot(w);
    hide ToLower, RoutedByKey, OnTheSpot, OneKey, Relay, Broadcast, Lookup, Local;
  }

  lemma NotOnTheSpot(w: Bytes)
    requires RoutedByKey(ToLower(w)).Some?
    ensures !OnTheSpot(ToLower(w))
  {
    hide ToLower;
    NameIsRegistered(RoutedByKey(ToLower(w)).value);
  }

  lemma RenameRoute(w: Bytes)
    requires Spelt(w, "rename") || Spelt(w, "renamenx")
    ensures var name := ToLower(w);
      !OnTheSpot(name) && RoutedByKey(name).None? && Lookup(name).Some? && Renames(Lookup(name).value)
  {
    NamedExactly(w, Rename);
    NamedExactly(w, Renamenx);
    NameIsRegistered(Rename);
    NameIsRegistered(Renamenx);
    hide ToLower, Spelt;
  }

  /** RENAME and RENAMENX are sent to the new key, not to its owner. So on a cluster they answer an error and
      do nothing, whatever the keys, unless the new key is spelt like a member's address. */
  lemma RenameIsRefused(cfg: Config, net: Net, count: nat, node: Bytes, selected: nat, prior: nat, line: CmdLine,
                        hops: nat)
    requires Reachable(cfg, net, count, node, selected, prior) && Distinct(cfg.hash, cfg.nodes)
    requires line != [] && (Spelt(line[0], "rename") || Spelt(line[0], "renamenx"))
    requires |line| == 3 && Owner(cfg, line[1]) == Owner(cfg, line[2]) ==> line[2] !in cfg.nodes
    ensures Serve(cfg, net, count, node, selected, prior, line, hops) == Some(Served(net, selected,
        if |line| != 3 then ArgNumError(Ascii("rename"))
        else if Owner(cfg, line[1]) != Owner(cfg, line[2]) then Error(Ascii("ERR cross slot rename is not allowed"))
        else Error(Ascii("relay failedgetPeerClient connection not found")), 0))
  {
    hide ToLower, Ascii, RoutedByKey, OnTheSpot, ToAll, Renames, Spelt, Broadcast, Lookup, Local, Send, Owner, Relay;
    hide Name;
    RenameRoute(line[0]);
    NameIsWord(Rename);
    if |line| == 3 {
      MembersAgree(cfg, node, line[1]);
      MembersAgree(cfg, node, line[2]);
      if line[2] !in cfg.nodes {
        UnknownPeer(cfg, net, count, node, line[2], selected, prior, line, hops);
      }
    }
  }

  /** And when it is, and both keys have one owner, the command is executed by the member of that address,
      owner or not. */
  lemma RenameGoesAstray(cfg: Config, net: Net, count: nat, node: Bytes, selected: nat, prior: nat, line: CmdLine,
                         hops: nat)
    requires Reachable(cfg, net, count, node, selected, prior) && Distinct(cfg.hash, cfg.nodes)
    requires |line| == 3 && (Spelt(line[0], "rename") || Spelt(line[0], "renamenx"))
    requires Owner(cfg, line[1]) == Owner(cfg, line[2]) && line[2] == node
    ensures Serve(cfg, net, count, node, selected, prior, line, hops) == Local(net, node, selected, line)
  {
    hide ToLower, Ascii, RoutedByKey, OnTheSpot, ToAll, Renames, Spelt, Broadcast, Lookup, Local, Send, Owner;
    RenameRoute(line[0]);
    MembersAgree(cfg, node, line[1]);
    MembersAgree(cfg, node, line[2]);
  }

  lemma UnknownPeer(cfg: Config, net: Net, count: nat, node: Bytes, peer: Bytes, selected: nat, prior: nat,
                    line: CmdLine, hops: nat)
    requires Reachable(cfg, net, count, node, selected, prior) && line != [] && peer !in cfg.nodes
    ensures Relay(cfg, net, count, node, peer, selected, prior, line, hops)
            == Some(Served(net, selected, Error(Ascii("relay failedgetPeerClient connection not found")), 0))
  {
    hide Send, Itoa, Local, Ascii;
  }

  /** The two commands for every member, by name. */
  predicate ForAll(w: Bytes) {
    Spelt(w, "del") || Spelt(w, "flushdb")
  }

  lemma BroadcastRoute(w: Bytes)
    requires ForAll(w)
    ensures var name := ToLower(w);
      && !OnTheSpot(name) && RoutedByKey(name).None? && Lookup(name).Some?
      && !Renames(Lookup(name).value) && ToAll(Lookup(name).value)
  {
    NamedExactly(w, Del);
    NamedExactly(w, FlushDb);
    NameIsRegistered(Del);
    NameIsRegistered(FlushDb);
    hide ToLower, Spelt;
  }

  /** Another member's name is in every member's list. */
  ghost predicate HasOther(nodes: seq<Bytes>, node: Bytes) {
    exists i :: 0 <= i < |nodes| && nodes[i] != node
  }

  /** DEL and FLUSHDB are sent to every member, and each of those sends them to every member again: with two
      members or more, no number of forwards is enough. */
  lemma {:induction false} BroadcastNeverReturns(cfg: Config, net: Net, count: nat, node: Bytes, selected: nat,
                                                 prior: nat, line: CmdLine, hops: nat)
    requires Reachable(cfg, net, count, node, selected, prior) && Parsed(line)
    requires ForAll(line[0])
    requires HasOther(cfg.nodes, node)
    ensures Serve(cfg, net, count, node, selected, prior, line, hops) == None
    decreases hops, 2, 0
  {
    BroadcastRoute(line[0]);
    OtherInList(cfg, node);
    hide ToLower, Ascii, RoutedByKey, OnTheSpot, ToAll, Renames, ForAll, Lookup, Local, Send, Relay, HasOther;
    BroadcastBreaks(cfg, net, count, node, cfg.lists[node], selected, prior, line, hops);
  }

  lemma OtherInList(cfg: Config, node: Bytes)
    requires cfg.Valid() && node in cfg.lists && HasOther(cfg.nodes, node)
    ensures HasOther(cfg.lists[node], node)
    ensures forall i | 0 <= i < |cfg.lists[node]| :: cfg.lists[node][i] in cfg.lists
  {
    var i :| 0 <= i < |cfg.nodes| && cfg.nodes[i] != node;
    assert SameNodes(cfg.lists[node], cfg.nodes);
    assert cfg.nodes[i] in cfg.lists[node];
  }

  lemma {:induction false} BroadcastBreaks(cfg: Config, net: Net, count: nat, node: Bytes, peers: seq<Bytes>,
                                           selected: nat, prior: nat, line: CmdLine, hops: nat)
    requires Reachable(cfg, net, count, node, selected, prior) && Parsed(line)
    requires ForAll(line[0])
    requires HasOther(peers, node) && forall i | 0 <= i < |peers| :: peers[i] in cfg.lists
    ensures Broadcast(cfg, net, count, node, peers, selected, prior, line, hops) == None
    decreases hops, 1, |peers|
  {
    assert line != [];
    hide ForAll, Parsed, Relay, Local;
    var first := Relay(cfg, net, count, node, peers[0], selected, prior, line, hops);
    if peers[0] != node {
      RelayBreaks(cfg, net, count, node, peers[0], selected, prior, line, hops);
    } else if first.Some? {
      var tail := peers[1..];
      assert HasOther(tail, node) by {
        var i :| 0 <= i < |peers| && peers[i] != node;
        assert tail[i - 1] == peers[i];
      }
      BroadcastBreaks(cfg, first.value.net, count, node, tail, selected, prior, line, hops);
    }
  }

  lemma {:induction false} RelayBreaks(cfg: Config, net: Net, count: nat, node: Bytes, peer: Bytes, selected: nat,
                                       prior: nat, line: CmdLine, hops: nat)
    requires Reachable(cfg, net, count, node, selected, prior) && Parsed(line)
    requires ForAll(line[0])
    requires peer in cfg.lists && peer != node
    ensures Relay(cfg, net, count, node, peer, selected, prior, line, hops) == None
    decreases hops, 0, 0
  {
    hide HasOther, ForAll, Send, Serve, Local, Itoa, Relay, NoDollar;
    ReachablePeer(cfg, net, count, node, peer, selected, prior);
    OtherNode(cfg, net, count, node, peer, selected, prior);
    hide Reachable;
    if hops == 0 {
      NoForwardLeft(cfg, net, count, node, peer, selected, prior, line);
    } else {
      RelayAway(cfg, net, count, node, peer, selected, prior, line, hops);
      SendBreaks(cfg, net, count, peer, prior, line, selected, hops - 1);
    }
  }

  lemma ReachablePeer(cfg: Config, net: Net, count: nat, node: Bytes, peer: Bytes, selected: nat, prior: nat)
    requires Reachable(cfg, net, count, node, selected, prior) && peer in cfg.lists
    ensures peer in net && Reachable(cfg, net, count, peer, prior, selected) && node in cfg.lists
    ensures Reachable(cfg, net, count, peer, prior, prior) && Reachable(cfg, net, count, peer, selected, prior)
  {
  }

  lemma NoForwardLeft(cfg: Config, net: Net, count: nat, node: Bytes, peer: Bytes, selected: nat, prior: nat,
                      line: CmdLine)
    requires Reachable(cfg, net, count, node, selected, prior) && line != []
    requires peer in cfg.lists && peer != node
    ensures Relay(cfg, net, count, node, peer, selected, prior, line, 0) == None
  {
    hide Send, Itoa, Local, Ascii;
  }

  lemma OtherNode(cfg: Config, net: Net, count: nat, node: Bytes, peer: Bytes, selected: nat, prior: nat)
    requires Reachable(cfg, net, count, node, selected, prior) && peer != node
    ensures HasOther(cfg.nodes, peer)
  {
    var i :| 0 <= i < |cfg.nodes| && cfg.nodes[i] == node;
  }

  lemma {:induction false} SendBreaks(cfg: Config, net: Net, count: nat, peer: Bytes, prior: nat, line: CmdLine,
                                      selected: nat, hops: nat)
    requires Reachable(cfg, net, count, peer, selected, prior) && Parsed(line)
    requires ForAll(line[0])
    requires HasOther(cfg.nodes, peer)
    ensures Send(cfg, net, count, peer, selected, prior, line, hops) == None
    decreases hops, 3, 0
  {
    hide ForAll, Parsed, Serve, Feed, Print, ToBytes, HasOther, NoEmpty, WireSafe;
    ParsedIsSafe(line);
    if NoEmpty(line) {
      Arrives(line);
      BroadcastNeverReturns(cfg, net, count, peer, selected, prior, line, hops);
    } else {
      SendKills(cfg, net, count, peer, selected, prior, line, hops);
    }
  }

  /** SELECT and PING, which every member answers by itself. */
  lemma LocalCommand(cfg: Config, net: Net, whole: seq<Store>, node: Bytes, selected: nat, prior: nat, line: CmdLine,
                     hops: nat)
    requires Ready(cfg, net, whole, node, selected, prior) && line != []
    requires Spelt(line[0], "select") || Spelt(line[0], "ping")
    ensures Reachable(cfg, net, |whole|, node, selected, prior)
    ensures LikeWhole(cfg, Serve(cfg, net, |whole|, node, selected, prior, line, hops), Exec(whole, selected, line))
  {
    OnTheSpotExactly(line[0]);
    hide ToLower, Represents, AllStored, SameReply, Exec, Relay, Broadcast, RoutedByKey, Lookup, Spelt;
    ReadyIsReachable(cfg, net, whole, node, selected, prior);
    SameLocally(net[node], whole, selected, line);
    ReceivedIsSame(Exec(whole, selected, line).answer.reply);
    assert net[node := net[node]] == net;
  }

  lemma SameLocally(dbs: seq<Store>, whole: seq<Store>, selected: nat, line: CmdLine)
    requires |dbs| == |whole| && selected < |whole| && line != []
    requires Spelt(line[0], "select") || Spelt(line[0], "ping")
    ensures var e := Exec(whole, selected, line);
      Exec(dbs, selected, line) == e.(dbs := dbs) && e.dbs == whole && e.answer.One?
  {
    OnTheSpotExactly(line[0]);
    hide ToLower, Spelt;
    NameIsRegistered(Ping);
    assert dbs[selected := dbs[selected]] == dbs;
    assert whole[selected := whole[selected]] == whole;
  }

  /** A request by a client that is connected to member `entry`. */
  datatype Arrival = Arrival(client: int, entry: Bytes, prior: nat, line: CmdLine)

  predicate Covered(r: Arrival) {
    Routable(r.line) || (r.line != [] && (Spelt(r.line[0], "select") || Spelt(r.line[0], "ping")))
  }

  ghost predicate AllCovered(cfg: Config, count: nat, reqs: seq<Arrival>) {
    forall i | 0 <= i < |reqs| :: Covered(reqs[i]) && reqs[i].entry in cfg.lists && reqs[i].prior < count
  }

  type Selected = map<int, nat>

  function SelectedBy(selected: Selected, client: int): nat {
    if client in selected then selected[client] else 0
  }

  predicate SelectedValid(selected: Selected, count: nat) {
    count > 0 && forall c | c in selected :: selected[c] < count
  }

  /** A run of the cluster: the members' databases, the clients' selections, and what was answered. */
  datatype ClusterRun = ClusterRun(net: Net, selected: Selected, replies: seq<Reply>, forwards: seq<nat>)

  /** The same requests to one standalone server. */
  datatype SingleRun = SingleRun(dbs: seq<Store>, selected: Selected, answers: seq<Answer>)

  function AddServed(run: ClusterRun, client: int, s: Served): ClusterRun {
    ClusterRun(s.net, run.selected[client := s.selected], run.replies + [s.reply], run.forwards + [s.forwards])
  }

  function AddExecuted(run: SingleRun, client: int, e: Executed): SingleRun {
    SingleRun(e.dbs, run.selected[client := e.selected], run.answers + [e.answer])
  }

  ghost function RunCluster(cfg: Config, net: Net, count: nat, reqs: seq<Arrival>): (r: Option<ClusterRun>)
    requires cfg.Valid() && NetValid(cfg, net, count) && AllCovered(cfg, count, reqs)
    ensures r.Some? ==> NetValid(cfg, r.value.net, count) && SelectedValid(r.value.selected, count)
                        && |r.value.replies| == |r.value.forwards| == |reqs|
    decreases |reqs|
  {
    if reqs == [] then Some(ClusterRun(net, map[], [], []))
    else
      var last := reqs[|reqs| - 1];
      match RunCluster(cfg, net, count, reqs[..|reqs| - 1])
      case None => None
      case Some(run) =>
        hide Serve;
        match Serve(cfg, run.net, count, last.entry, SelectedBy(run.selected, last.client), last.prior, last.line, 1)
        case None => None
        case Some(s) => Some(AddServed(run, last.client, s))
  }

  ghost function RunSingle(dbs: seq<Store>, reqs: seq<Arrival>): (r: SingleRun)
    requires dbs != [] && forall i | 0 <= i < |reqs| :: reqs[i].line != []
    ensures |r.dbs| == |dbs| && SelectedValid(r.selected, |dbs|) && |r.answers| == |reqs|
    decreases |reqs|
  {
    if reqs == [] then SingleRun(dbs, map[], [])
    else
      var last := reqs[|reqs| - 1];
      var run := RunSingle(dbs, reqs[..|reqs| - 1]);
      var e := Exec(run.dbs, SelectedBy(run.selected, last.client), last.line);
      AddExecuted(run, last.client, e)
  }

  function Requests(reqs: seq<Arrival>): (r: seq<Request>)
    ensures |r| == |reqs|
  {
    seq(|reqs|, i requires 0 <= i < |reqs| => Request(reqs[i].client, reqs[i].line))
  }

  /** That single run is the run of the server of the durability results, its log apart. */
  lemma {:induction false} SingleRunIsAfter(dbs: seq<Store>, log: Log, reqs: seq<Arrival>)
    requires Session(dbs, map[], log).Valid() && forall i | 0 <= i < |reqs| :: reqs[i].line != []
    ensures NonEmptyRequests(Requests(reqs))
    ensures var s := After(Session(dbs, map[], log), Requests(reqs));
      RunSingle(dbs, reqs).dbs == s.dbs && RunSingle(dbs, reqs).selected == s.selected
    decreases |reqs|
  {
    hide Exec, Append;
    if reqs != [] {
      var n := |reqs| - 1;
      SingleRunIsAfter(dbs, log, reqs[..n]);
      assert Requests(reqs)[..n] == Requests(reqs[..n]);
      assert Requests(reqs)[n] == Request(reqs[n].client, reqs[n].line);
    }
  }

  /** Request `r` can be served after `run`. */
  ghost predicate CanServe(cfg: Config, run: SingleRun, r: Arrival)
    requires run.dbs != [] && SelectedValid(run.selected, |run.dbs|) && Covered(r)
  {
    Routable(r.line) ==> Forwardable(cfg, run.dbs, r.entry, SelectedBy(run.selected, r.client), r.line)
  }

  /** Every request can be served when its turn comes. */
  ghost predicate AllServable(cfg: Config, dbs: seq<Store>, reqs: seq<Arrival>)
    requires dbs != [] && AllCovered(cfg, |dbs|, reqs)
    decreases |reqs|
  {
    reqs == [] ||
    (CoveredIsNonEmpty(cfg, |dbs|, reqs);
     var front := reqs[..|reqs| - 1];
     AllServable(cfg, dbs, front) && CanServe(cfg, RunSingle(dbs, front), reqs[|reqs| - 1]))
  }

  lemma CoveredIsNonEmpty(cfg: Config, count: nat, reqs: seq<Arrival>)
    requires AllCovered(cfg, count, reqs)
    ensures forall i | 0 <= i < |reqs| :: reqs[i].line != []
  {
  }

  /** The members' run answers like the single server's, request by request, and represents it. */
  ghost predicate Refines(cfg: Config, run: ClusterRun, single: SingleRun) {
    && Represents(cfg, run.net, single.dbs) && AllStored(single.dbs)
    && run.selected == single.selected
    && |run.replies| == |run.forwards| == |single.answers|
    && forall i | 0 <= i < |single.answers| ::
         run.forwards[i] <= 1 && single.answers[i].One? && SameReply(run.replies[i], single.answers[i].reply)
  }

  ghost predicate RefinedBy(cfg: Config, run: Option<ClusterRun>, single: SingleRun) {
    run.Some? && Refines(cfg, run.value, single)
  }

  /** Cluster refinement, exactly. A cluster without colliding names serves any run of single-key
      commands, SELECT and PING, by any clients through any members, if and only if no request would
      have to send an empty argument or an empty value between members; and then it forwards each
      command at most once, keeps each key on its owner only, and acts and answers like the same run on
      one standalone server. */
  lemma {:induction false} ClusterRefinement(cfg: Config, net: Net, whole: seq<Store>, reqs: seq<Arrival>)
    requires cfg.Valid() && Distinct(cfg.hash, cfg.nodes)
    requires whole != [] && Represents(cfg, net, whole) && AllStored(whole)
    requires AllCovered(cfg, |whole|, reqs)
    ensures forall i | 0 <= i < |reqs| :: reqs[i].line != []
    ensures NetValid(cfg, net, |whole|)
    ensures var run := RunCluster(cfg, net, |whole|, reqs);
      if AllServable(cfg, whole, reqs) then RefinedBy(cfg, run, RunSingle(whole, reqs)) else run == None
    decreases |reqs|
  {
    hide Serve, Exec, Represents, AllStored, LikeWhole, SameReply, Routable, ToLower, Forwardable, CanServe;
    CoveredIsNonEmpty(cfg, |whole|, reqs);
    Represented(cfg, net, whole);
    if reqs == [] {
      assert Refines(cfg, ClusterRun(net, map[], [], []), SingleRun(whole, map[], []));
    } else {
      var front, last := reqs[..|reqs| - 1], reqs[|reqs| - 1];
      ClusterRefinement(cfg, net, whole, front);
      if AllServable(cfg, whole, front) {
        var run, single := RunCluster(cfg, net, |whole|, front).value, RunSingle(whole, front);
        RefinedRun(cfg, run, single);
        hide Refines, AddServed, AddExecuted;
        var selected := SelectedBy(run.selected, last.client);
        assert Covered(last);
        StepRefines(cfg, run.net, single, last);
        if CanServe(cfg, single, last) {
          var s := Serve(cfg, run.net, |whole|, last.entry, selected, last.prior, last.line, 1);
          OneMoreRequest(cfg, run, single, last.client, s, Exec(single.dbs, selected, last.line));
        }
      }
    }
  }

  lemma RefinedRun(cfg: Config, run: ClusterRun, single: SingleRun)
    requires Refines(cfg, run, single)
    ensures Represents(cfg, run.net, single.dbs) && AllStored(single.dbs) && run.selected == single.selected
  {
  }

  lemma OneMoreRequest(cfg: Config, run: ClusterRun, single: SingleRun, client: int, s: Option<Served>, e: Executed)
    requires Refines(cfg, run, single) && LikeWhole(cfg, s, e)
    ensures s.Some? && Refines(cfg, AddServed(run, client, s.value), AddExecuted(single, client, e))
  {
    hide Represents, AllStored, SameReply;
  }

  lemma StepRefines(cfg: Config, net: Net, single: SingleRun, r: Arrival)
    requires cfg.Valid() && Distinct(cfg.hash, cfg.nodes)
    requires single.dbs != [] && SelectedValid(single.selected, |single.dbs|)
    requires Represents(cfg, net, single.dbs) && AllStored(single.dbs)
    requires Covered(r) && r.entry in cfg.lists && r.prior < |single.dbs|
    ensures r.line != [] && NetValid(cfg, net, |single.dbs|)
    ensures var selected := SelectedBy(single.selected, r.client);
      var s := Serve(cfg, net, |single.dbs|, r.entry, selected, r.prior, r.line, 1);
      if CanServe(cfg, single, r) then LikeWhole(cfg, s, Exec(single.dbs, selected, r.line)) else s == None
  {
    hide Serve, Exec, Represents, AllStored, LikeWhole, ToLower, Forwardable, Routable;
    Represented(cfg, net, single.dbs);
    var selected := SelectedBy(single.selected, r.client);
    if Routable(r.line) {
      HasKey(r.line);
      RoutedCommand(cfg, net, single.dbs, r.entry, selected, r.prior, r.line, 1);
    } else {
      LocalCommand(cfg, net, single.dbs, r.entry, selected, r.prior, r.line, 1);
    }
  }

  /** Members that start empty represent an empty server. */
  lemma EmptyCluster(cfg: Config, net: Net, count: nat)
    requires cfg.Valid() && NetValid(cfg, net, count) && forall n | n in net :: net[n] == FreshStores(count)
    ensures Represents(cfg, net, FreshStores(count)) && AllStored(FreshStores(count))
  {
    hide Owner;
    forall n, d: nat, k | n in net && d < count ensures KeptByOwner(cfg, net, FreshStores(count), n, d, k) {
      assert net[n][d] == map[];
    }
  }

  /** The refinement from members that start empty: an empty cluster runs like an empty server. */
  lemma RefinementFromEmpty(cfg: Config, net: Net, count: nat, reqs: seq<Arrival>)
    requires cfg.Valid() && Distinct(cfg.hash, cfg.nodes)
    requires NetValid(cfg, net, count) && forall n | n in net :: net[n] == FreshStores(count)
    requires AllCovered(cfg, count, reqs)
    ensures forall i | 0 <= i < |reqs| :: reqs[i].line != []
    ensures var run, whole := RunCluster(cfg, net, count, reqs), FreshStores(count);
      if AllServable(cfg, whole, reqs) then RefinedBy(cfg, run, RunSingle(whole, reqs)) else run == None
  {
    hide Represents, AllStored, RunCluster, RunSingle, AllServable, Refines, AllCovered;
    EmptyCluster(cfg, net, count);
    ClusterRefinement(cfg, net, FreshStores(count), reqs);
  }

  /** With colliding names the cluster is no single server: each of two colliding members takes itself
      for the owner of the same key, so what is set through one is not found through the other. */
  lemma CollisionSplitsKey(cfg: Config, net: Net, count: nat, i: nat, j: nat, value: Bytes, prior: nat)
    requires cfg.Valid() && NetValid(cfg, net, count) && prior < count
    requires i < |cfg.nodes| && j < |cfg.nodes| && cfg.nodes[i] != cfg.nodes[j]
    requires cfg.hash(cfg.nodes[i]) == cfg.hash(cfg.nodes[j])
    requires cfg.lists[cfg.nodes[i]] == MemberList(cfg.nodes, i) && cfg.lists[cfg.nodes[j]] == MemberList(cfg.nodes, j)
    requires cfg.nodes[i] !in net[cfg.nodes[j]][0]
    ensures var a, b := cfg.nodes[i], cfg.nodes[j];
      var put := Serve(cfg, net, count, a, 0, prior, [Name(Put), a, value], 1);
      && put.Some? && put.value.reply == Ok
      && var got := Serve(cfg, put.value.net, count, b, 0, prior, [Name(Get), a], 1);
         got.Some? && got.value.reply == NullBulk
  {
    var a, b := cfg.nodes[i], cfg.nodes[j];
    assert a != [] && b != [];
    SelfIsLast(cfg.hash, cfg.nodes, i);
    SelfIsLast(cfg.hash, cfg.nodes, j);
    PickAtPoint(cfg.hash, RingOf(cfg.hash, MemberList(cfg.nodes, i)), a);
    PickAtPoint(cfg.hash, RingOf(cfg.hash, MemberList(cfg.nodes, j)), a);
    hide Pick, RingOf, MemberList, Name, ToLower, Lookup, Serve, Represents;
    PutLocally(cfg, net, count, a, prior, a, value);
    var put := Serve(cfg, net, count, a, 0, prior, [Name(Put), a, value], 1);
    GetLocally(cfg, put.value.net, count, b, prior, a);
  }

  lemma ServedHere(cfg: Config, net: Net, count: nat, node: Bytes, prior: nat, c: Command, args: CmdLine)
    requires Reachable(cfg, net, count, node, 0, prior) && ToOwner(c) && args != []
    requires Pick(cfg.hash, RingOf(cfg.hash, cfg.lists[node]), args[0]) == node
    ensures Serve(cfg, net, count, node, 0, prior, [Name(c)] + args, 1) == Local(net, node, 0, [Name(c)] + args)
  {
    NameIsRegistered(c);
    NameIsRegistered(Ping);
    hide Pick, RingOf, Name, ToLower, Lookup, Local, Broadcast;
  }

  /** SET at a member that takes itself for the owner. */
  lemma PutLocally(cfg: Config, net: Net, count: nat, node: Bytes, prior: nat, key: Bytes, value: Bytes)
    requires Reachable(cfg, net, count, node, 0, prior)
    requires Pick(cfg.hash, RingOf(cfg.hash, cfg.lists[node]), key) == node
    ensures Serve(cfg, net, count, node, 0, prior, [Name(Put), key, value], 1)
            == Some(Served(net[node := net[node][0 := net[node][0][key := Text(value)]]], 0, Ok, 0))
  {
    var line := [Name(Put), key, value];
    assert line == [Name(Put)] + [key, value] && line[1..] == [key, value];
    ServedHere(cfg, net, count, node, prior, Put, [key, value]);
    NameIsRegistered(Put);
    hide Serve, Pick, RingOf, Name, ToLower, Lookup;
  }

  /** GET there of a key it does not hold. */
  lemma GetLocally(cfg: Config, net: Net, count: nat, node: Bytes, prior: nat, key: Bytes)
    requires Reachable(cfg, net, count, node, 0, prior) && key !in net[node][0]
    requires Pick(cfg.hash, RingOf(cfg.hash, cfg.lists[node]), key) == node
    ensures Serve(cfg, net, count, node, 0, prior, [Name(Get), key], 1) == Some(Served(net, 0, NullBulk, 0))
  {
    var line := [Name(Get), key];
    assert line == [Name(Get)] + [key] && line[1..] == [key];
    ServedHere(cfg, net, count, node, prior, Get, [key]);
    NameIsRegistered(Get);
    hide Serve, Pick, RingOf, Name, ToLower, Lookup;
    assert net[node][0 := net[node][0]] == net[node];
    assert net[node := net[node]] == net;
  }
}
