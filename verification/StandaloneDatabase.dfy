/** The standalone server of database/standalone_database.go: several databases that share one log
    handler, commands for the selected one, and loading the log at start. */
module StandaloneDatabase {
  import opened ByteStrings
  import opened Strconv
  import opened Replies
  import opened Parser
  import opened ParserLaws
  import opened Commands
  import opened Server
  import opened Database
  import SyncDict

  /** `connection.Connection`, as far as commands see it. */
  class Connection {
    var selectedDB: nat

    constructor ()
      ensures selectedDB == 0
    {
      selectedDB := 0;
    }
  }

  class Standalone {
    var dbSet: seq<DB>
    var aofHandler: AofHandler?

    /** The databases are numbered by their place, have a dictionary each, and log to the one handler. */
    ghost predicate Valid()
      reads this, dbSet
    {
      && dbSet != []
      && (forall i | 0 <= i < |dbSet| :: dbSet[i].index == i && dbSet[i].aof == aofHandler)
      && (forall i, j | 0 <= i < j < |dbSet| :: dbSet[i].data != dbSet[j].data)
    }

    ghost function Dicts(): set<SyncDict.Dict>
      reads this
    {
      set i | 0 <= i < |dbSet| :: dbSet[i].data
    }

    ghost function Stores(): (s: seq<Store>)
      reads this, Dicts()
      ensures |s| == |dbSet|
    {
      seq(|dbSet|, i requires 0 <= i < |dbSet| reads this, Dicts() => dbSet[i].data.m)
    }

    /** `NewStandaloneDatabase`, before any log is loaded. A count of 0 means the default of 16. */
    constructor (count: nat)
      ensures Valid() && fresh(dbSet) && fresh(Dicts()) && aofHandler == null
      ensures Stores() == FreshStores(if count == 0 then 16 else count)
    {
      var databases := if count == 0 then 16 else count;
      dbSet, aofHandler := [], null;
      new;
      for i := 0 to databases
        invariant |dbSet| == i && aofHandler == null
        invariant fresh(dbSet) && forall k | 0 <= k < i :: fresh(dbSet[k].data)
        invariant forall k | 0 <= k < i ::
            dbSet[k].index == k && dbSet[k].aof == null && dbSet[k].data.m == map[]
        invariant forall k, l | 0 <= k < l < i :: dbSet[k].data != dbSet[l].data
      {
        var db := new DB(i);
        dbSet := dbSet + [db];
      }
    }

    /** Installs the log handler in every database. */
    method InstallAof(content: Bytes)
      requires Valid() && aofHandler == null
      modifies this, dbSet
      ensures Valid() && fresh(aofHandler) && aofHandler.Value() == Log(content, 0)
      ensures dbSet == old(dbSet) && Stores() == old(Stores())
    {
      aofHandler := new AofHandler(content);
      for i := 0 to |dbSet|
        invariant dbSet == old(dbSet) && fresh(aofHandler) && aofHandler.Value() == Log(content, 0)
        invariant forall k | 0 <= k < i :: dbSet[k].aof == aofHandler
        invariant forall k | 0 <= k < |dbSet| :: dbSet[k].index == k
        invariant Stores() == old(Stores())
      {
        dbSet[i].aof := aofHandler;
      }
    }

    method Exec(client: Connection, args: CmdLine) returns (reply: Reply)
      requires Valid() && args != [] && client.selectedDB < |dbSet|
      modifies client, Dicts(), aofHandler
      ensures Valid()
      ensures var e := Server.Exec(old(Stores()), old(client.selectedDB), args);
        && Stores() == e.dbs
        && client.selectedDB == e.selected
        && Answers(e.answer, reply)
        && (aofHandler != null ==> aofHandler.Value() == Recorded(old(aofHandler.Value()), e.call))
    {
      hide ExecDb, ToLower;
      if ToLower(args[0]) == SELECT {
        reply := ExecSelect(client, args);
      } else {
        var db := dbSet[client.selectedDB];
        reply := db.Exec(args);
        assert Stores() == old(Stores())[client.selectedDB := db.data.m];
      }
    }

    method ExecSelect(client: Connection, args: CmdLine) returns (reply: Reply)
      requires Valid() && args != [] && client.selectedDB < |dbSet|
      modifies client
      ensures (client.selectedDB, reply) == Select(|dbSet|, old(client.selectedDB), args)
    {
      if |args| != 2 {
        return ArgNumError(SELECT);
      }
      match ParseInt(args[1])
      case None => return Error(Ascii("ERR invalid DB index"));
      case Some(dbIndex) =>
        if dbIndex < 0 || dbIndex >= |dbSet| {
          return Error(Ascii("ERR DB index out of range"));
        }
        client.selectedDB := dbIndex;
        return Ok;
    }

    /** `LoadAof`: the databases do not log yet. It does not return when the parser dies. */
    method LoadAof(content: Bytes) returns (returned: bool)
      requires Valid() && aofHandler == null && Stores() == FreshStores(|dbSet|)
      modifies Dicts()
      ensures Valid()
      ensures var loaded := Load(|dbSet|, content);
        && returned == loaded.Some?
        && (returned ==> Stores() == loaded.value.dbs)
    {
      hide Feed, Server.Exec, CommandsIn, Replay, Answers;
      NothingToReplay(Loaded(FreshStores(|dbSet|), 0));
      var reader := new BufReader(content);
      var parsed := Parse0(reader);
      var fakeConn := new Connection();
      ghost var from := Loaded(FreshStores(|dbSet|), 0);
      var payloads := parsed.out;
      EmittedCommandsAreSound(REST, content);
      PayloadsOfParse(content);
      for i := 0 to |payloads|
        invariant Valid() && fakeConn.selectedDB < |dbSet|
        invariant NonEmptyLines(CommandsIn(payloads[..i]))
        invariant Replay(from, CommandsIn(payloads[..i])) == Loaded(Stores(), fakeConn.selectedDB)
      {
        OneMorePayload(payloads, i);
        var c := payloads[i];
        if c.Data? && c.reply.MultiBulk? {
          var line := c.reply.args;
          ReplayLast(from, CommandsIn(payloads[..i]), line);
          var _ := Exec(fakeConn, line);
        }
      }
      assert payloads[..|payloads|] == payloads;
      return parsed.Closed?;
    }
  }

  lemma NothingToReplay(from: Loaded)
    requires from.selected < |from.dbs|
    ensures CommandsIn([]) == [] && Replay(from, []) == from
  {
  }

  lemma OneMorePayload(payloads: seq<Payload>, i: nat)
    requires i < |payloads| && (forall p | p in payloads :: SoundPayload(p))
    ensures var c := payloads[i];
      CommandsIn(payloads[..i + 1])
      == CommandsIn(payloads[..i]) + if c.Data? && c.reply.MultiBulk? then [c.reply.args] else []
    ensures payloads[i].Data? && payloads[i].reply.MultiBulk? ==> payloads[i].reply.args != []
    ensures CommandsIn(payloads[..i]) + [] == CommandsIn(payloads[..i])
  {
    assert payloads[..i + 1][..i] == payloads[..i];
    assert payloads[i] in payloads;
  }

  lemma ReplayLast(from: Loaded, cmds: seq<CmdLine>, line: CmdLine)
    requires from.selected < |from.dbs| && NonEmptyLines(cmds) && line != []
    ensures NonEmptyLines(cmds + [line])
    ensures var r := Replay(from, cmds); var e := Exec(r.dbs, r.selected, line);
      Replay(from, cmds + [line]) == Loaded(e.dbs, e.selected)
  {
    hide Exec;
    assert (cmds + [line])[..|cmds|] == cmds;
  }

  /** `NewStandaloneDatabase`: with the log on, load it first and only then let the databases log.
      `ready` is false when loading hangs. */
  method NewStandaloneDatabase(count: nat, appendOnly: bool, content: Bytes)
      returns (database: Standalone, ready: bool)
    ensures fresh(database) && database.Valid()
    ensures var n := if count == 0 then 16 else count;
      if !appendOnly then ready && database.aofHandler == null && database.Stores() == FreshStores(n)
      else ready == Load(n, content).Some?
           && (ready ==> && database.Stores() == Load(n, content).value.dbs
                         && database.aofHandler != null
                         && database.aofHandler.Value() == Log(content, 0))
  {
    hide Load;
    database := new Standalone(count);
    ready := true;
    if appendOnly {
      ready := database.LoadAof(content);
      if ready {
        database.InstallAof(content);
      }
    }
  }

  /** The I/O error at the end of a stream is no command. */
  lemma PayloadsOfParse(content: Bytes)
    ensures var out := Parse(content).out;
      && (forall p | p in out :: p in Feed(REST, content).out || p.IoError?)
      && CommandsIn(out) == CommandsIn(Feed(REST, content).out)
  {
    hide Feed;
    var out := Feed(REST, content).out;
    if Feed(REST, content).Waiting? {
      var last := Parse(content).out[|out|];
      assert Parse(content).out[..|out|] == out;
      assert CommandsIn(out) + [] == CommandsIn(out);
    }
  }
}
