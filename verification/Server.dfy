/** The standalone server as functions: several databases, the append-only log, and recovery. */
module Server {
  import opened ByteStrings
  import opened Strconv
  import opened Replies
  import opened Parser
  import opened ParserLaws
  import opened Commands

  /** The log file's bytes and `currentDBIndex`, the database of the last record. */
  datatype Log = Log(bytes: Bytes, current: nat)

  /** A record and the index of the database it is for. */
  type Call = (nat, CmdLine)

  function SelectRecord(db: nat): CmdLine {
    [SELECT, Itoa(db)]
  }

  /** What `AddAof` writes: a SELECT first, when the database is not the last record's. */
  function Records(current: nat, call: Call): seq<CmdLine> {
    if call.0 == current then [call.1] else [SelectRecord(call.0), call.1]
  }

  function Append(log: Log, call: Call): Log {
    Log(log.bytes + PrintAll(Records(log.current, call)), call.0)
  }

  function Recorded(log: Log, call: Option<Call>): Log {
    if call.Some? then Append(log, call.value) else log
  }

  datatype Executed = Executed(dbs: seq<Store>, selected: nat, answer: Answer, call: Option<Call>)

  /** `StandaloneDatabase.Exec` for a connection that has `selected` chosen. */
  function Exec(dbs: seq<Store>, selected: nat, line: CmdLine): (r: Executed)
    requires selected < |dbs| && line != []
    ensures |r.dbs| == |dbs| && r.selected < |dbs|
    ensures r.call.Some? ==> r.call.value.0 == selected == r.selected
  {
    if ToLower(line[0]) == SELECT then
      var (next, reply) := Select(|dbs|, selected, line);
      Executed(dbs, next, One(reply), None)
    else
      var e := ExecDb(dbs[selected], line);
      Executed(dbs[selected := e.store], selected, e.answer,
               if e.log.Some? then Some((selected, e.log.value)) else None)
  }

  function Select(count: nat, selected: nat, line: CmdLine): (r: (nat, Reply))
    requires selected < count && line != []
    ensures r.0 < count
  {
    if |line| != 2 then (selected, ArgNumError(SELECT))
    else
      match ParseInt(line[1])
      case None => (selected, Error(Ascii("ERR invalid DB index")))
      case Some(n) =>
        if n < 0 || n >= count then (selected, Error(Ascii("ERR DB index out of range")))
        else (n, Ok)
  }

  /** SELECT, with its letters capital or not: a decimal spelling of an index in range, and only that,
      selects the database; anything else is an error and keeps the selection. No database changes. */
  lemma SelectExactly(dbs: seq<Store>, selected: nat, w: Bytes, args: CmdLine)
    requires selected < |dbs| <= INT64_MAX && Spelt(w, "select")
    ensures var e := Exec(dbs, selected, [w] + args);
      && e.dbs == dbs && e.call == None && e.answer.One?
      && (forall n: nat | n < |dbs| && |args| == 1 && Spells(args[0], n) :: e.selected == n && e.answer.reply == Ok)
      && ((|args| == 1 ==> forall n: nat | n < |dbs| :: !Spells(args[0], n)) ==>
            e.selected == selected && (e.answer.reply.Error? || e.answer.reply == ArgNumError(Ascii("select"))))
  {
    SelectText();
    SpeltExactly(w, "select");
    hide Spells, ParseInt, ToLower, Ascii;
    var line := [w] + args;
    if |args| == 1 {
      assert line[1] == args[0];
      forall n: nat | n < |dbs| ensures ParseInt(args[0]) == Some(n) <==> Spells(args[0], n) {
        ParseIntExactly(args[0], n);
      }
    }
  }

  lemma SelectText()
    ensures SELECT == Ascii("select")
  {
  }

  /** Every other command runs on the selected database alone, and keeps the selection. */
  lemma OthersKeepSelection(dbs: seq<Store>, selected: nat, line: CmdLine)
    requires selected < |dbs| && line != [] && !Spelt(line[0], "select")
    ensures var e, x := Exec(dbs, selected, line), ExecDb(dbs[selected], line);
      && e.selected == selected && e.answer == x.answer
      && e.dbs[selected] == x.store && (forall d | 0 <= d < |dbs| && d != selected :: e.dbs[d] == dbs[d])
      && (e.call.Some? <==> x.log.Some?) && (e.call.Some? ==> e.call == Some((selected, x.log.value)))
  {
    SelectText();
    SpeltExactly(line[0], "select");
    hide Ascii, ToLower, ExecDb;
  }

  predicate NonEmptyLines(cmds: seq<CmdLine>) {
    forall i | 0 <= i < |cmds| :: cmds[i] != []
  }

  datatype Loaded = Loaded(dbs: seq<Store>, selected: nat)

  /** Commands executed one after the other on one connection. */
  function Replay(from: Loaded, cmds: seq<CmdLine>): (r: Loaded)
    requires from.selected < |from.dbs| && NonEmptyLines(cmds)
    ensures |r.dbs| == |from.dbs| && r.selected < |r.dbs|
    decreases |cmds|
  {
    if cmds == [] then from
    else
      var last := |cmds| - 1;
      var r := Replay(from, cmds[..last]);
      var e := Exec(r.dbs, r.selected, cmds[last]);
      Loaded(e.dbs, e.selected)
  }

  /** The payloads `LoadAof` executes: it skips errors and every reply that is not an array. */
  function CommandsIn(out: seq<Payload>): seq<CmdLine>
    decreases |out|
  {
    if out == [] then []
    else
      var last := |out| - 1;
      CommandsIn(out[..last]) +
      if out[last].Data? && out[last].reply.MultiBulk? then [out[last].reply.args] else []
  }

  lemma {:induction false} CommandsInConcat(a: seq<Payload>, b: seq<Payload>)
    ensures CommandsIn(a + b) == CommandsIn(a) + CommandsIn(b)
    decreases |b|
  {
    if b == [] {
      assert a + b == a;
    } else {
      var last := |b| - 1;
      assert (a + b)[..|a| + last] == a + b[..last];
      CommandsInConcat(a, b[..last]);
    }
  }

  lemma {:induction false} CommandsInCommands(cmds: seq<CmdLine>)
    ensures CommandsIn(Sent(cmds)) == cmds
    decreases |cmds|
  {
    if cmds != [] {
      var last := |cmds| - 1;
      assert Sent(cmds)[..last] == Sent(cmds[..last]);
      CommandsInCommands(cmds[..last]);
      assert cmds == cmds[..last] + [cmds[last]];
    }
  }

  lemma {:induction false} CommandsAreNonEmpty(out: seq<Payload>)
    requires forall p | p in out :: SoundPayload(p)
    ensures NonEmptyLines(CommandsIn(out))
    decreases |out|
  {
    if out != [] {
      assert out[|out| - 1] in out;
      CommandsAreNonEmpty(out[..|out| - 1]);
    }
  }

  function FreshStores(count: nat): seq<Store> {
    seq(count, i => map[])
  }

  /** What can be loaded from a log: the commands in it, whether or not its last record is whole. */
  function LoggedCommands(bytes: Bytes): (cmds: seq<CmdLine>)
    ensures NonEmptyLines(cmds)
  {
    EmittedCommandsAreSound(REST, bytes);
    CommandsAreNonEmpty(Feed(REST, bytes).out);
    CommandsIn(Feed(REST, bytes).out)
  }

  /** `LoadAof` on fresh databases. It never returns when the parser dies: nobody closes the channel. */
  function Load(count: nat, bytes: Bytes): (r: Option<Loaded>)
    requires count > 0
    ensures r.Some? ==> |r.value.dbs| == count && r.value.selected < count
  {
    if Feed(REST, bytes).Dead? then None
    else Some(Replay(Loaded(FreshStores(count), 0), LoggedCommands(bytes)))
  }

  lemma {:induction false} ReplayConcat(from: Loaded, a: seq<CmdLine>, b: seq<CmdLine>)
    requires from.selected < |from.dbs| && NonEmptyLines(a) && NonEmptyLines(b)
    ensures NonEmptyLines(a + b)
    ensures Replay(from, a + b) == Replay(Replay(from, a), b)
    decreases |b|
  {
    hide Exec;
    if b == [] {
      assert a + b == a;
    } else {
      var last := |b| - 1;
      assert (a + b)[..|a| + last] == a + b[..last];
      ReplayConcat(from, a, b[..last]);
    }
  }

  /** A client's request: who sends it, and the command. */
  datatype Request = Request(client: int, line: CmdLine)

  /** A running server: its databases, the database each connection has selected, and the log. */
  datatype Session = Session(dbs: seq<Store>, selected: map<int, nat>, log: Log) {
    function SelectedBy(client: int): nat {
      if client in selected then selected[client] else 0
    }

    predicate Valid() {
      && |dbs| > 0
      && log.current < |dbs| <= INT64_MAX
      && forall c | c in selected :: selected[c] < |dbs|
    }
  }

  function Run1(s: Session, r: Request): Executed
    requires s.Valid() && r.line != []
  {
    Exec(s.dbs, s.SelectedBy(r.client), r.line)
  }

  function Next(s: Session, r: Request): (t: Session)
    requires s.Valid() && r.line != []
    ensures t.Valid() && |t.dbs| == |s.dbs|
  {
    var e := Run1(s, r);
    Session(e.dbs, s.selected[r.client := e.selected], Recorded(s.log, e.call))
  }

  predicate NonEmptyRequests(reqs: seq<Request>) {
    forall i | 0 <= i < |reqs| :: reqs[i].line != []
  }

  /** The server after a sequence of requests, from any mix of clients. */
  function After(s: Session, reqs: seq<Request>): (t: Session)
    requires s.Valid() && NonEmptyRequests(reqs)
    ensures t.Valid() && |t.dbs| == |s.dbs|
    decreases |reqs|
  {
    if reqs == [] then s else Next(After(s, reqs[..|reqs| - 1]), reqs[|reqs| - 1])
  }

  /** Selections are private: a connection starts in database 0, its own requests alone change which one it
      has selected, and it runs on that one. */
  lemma SelectionsArePrivate(s: Session, r: Request)
    requires s.Valid() && r.line != []
    ensures var t := Next(s, r);
      && (r.client !in s.selected ==> Run1(s, r) == Exec(s.dbs, 0, r.line))
      && (r.client in s.selected ==> Run1(s, r) == Exec(s.dbs, s.selected[r.client], r.line))
      && t.SelectedBy(r.client) == Run1(s, r).selected
      && forall c | c != r.client :: t.SelectedBy(c) == s.SelectedBy(c)
  {
    hide Exec;
  }
}
