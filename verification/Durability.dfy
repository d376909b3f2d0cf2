/** What the append-only log guarantees: recovery gives back the live databases, a log cut anywhere
    gives back databases the server really had, and eliding SELECT records loses nothing. */
module Durability {
  import opened ByteStrings
  import opened Strconv
  import opened Replies
  import opened Parser
  import opened ParserLaws
  import opened Commands
  import opened Server

  /** The log ends between two records. */
  predicate Clean(bytes: Bytes) {
    Feed(REST, bytes).Waiting? && Feed(REST, bytes).st == REST && Feed(REST, bytes).left == []
  }

  /** Loading the log gives the live databases, with the last record's database selected. */
  predicate Recoverable(s: Session)
    requires s.Valid()
  {
    Clean(s.log.bytes) && Load(|s.dbs|, s.log.bytes) == Some(Loaded(s.dbs, s.log.current))
  }

  predicate AllSafe(cmds: seq<CmdLine>) {
    forall i | 0 <= i < |cmds| :: WireSafe(cmds[i])
  }

  lemma FeedAfterClean(bytes: Bytes, more: Bytes)
    requires Clean(bytes)
    ensures Feed(REST, bytes + more) == Then(Feed(REST, bytes).out, Feed(REST, more))
  {
    hide Feed;
    FeedInPieces(REST, bytes, more);
    assert [] + more == more;
  }

  /** Whole records appended to a clean log are loaded as such. */
  lemma LogGrows(bytes: Bytes, cmds: seq<CmdLine>)
    requires Clean(bytes) && AllSafe(cmds)
    ensures Clean(bytes + PrintAll(cmds))
    ensures LoggedCommands(bytes + PrintAll(cmds)) == LoggedCommands(bytes) + cmds
  {
    hide Feed;
    FeedAfterClean(bytes, PrintAll(cmds));
    WholeStream(cmds);
    CommandsInConcat(Feed(REST, bytes).out, Sent(cmds));
    CommandsInCommands(cmds);
  }

  lemma SelectRecordIsSafe(db: nat)
    requires db <= INT64_MAX
    ensures WireSafe(SelectRecord(db))
  {
    var d := Digits(db);
    assert IsDigit(d[0]);
    var r := SelectRecord(db);
    assert SafeArg(r[0]) && SafeArg(r[1]);
  }

  lemma RecordsAreSafe(current: nat, call: Call)
    requires call.0 <= INT64_MAX && WireSafe(call.1)
    ensures AllSafe(Records(current, call))
  {
    SelectRecordIsSafe(call.0);
  }

  /** Replaying a SELECT record selects its database. */
  lemma SelectRecordSelects(dbs: seq<Store>, selected: nat, db: nat)
    requires selected < |dbs| <= INT64_MAX && db < |dbs|
    ensures Exec(dbs, selected, SelectRecord(db)) == Executed(dbs, db, One(Ok), None)
  {
    ParseIntOfItoa(db);
    SelectIsLowerCase();
  }

  /** Replaying a call's records, from whatever is loaded: without a SELECT among them they are redone
      in the database that happens to be selected. */
  lemma RecordsLand(from: Loaded, current: nat, call: Call)
    requires from.selected < |from.dbs| <= INT64_MAX && call.0 < |from.dbs|
    requires call.1 != [] && ToLower(call.1[0]) != SELECT
    ensures NonEmptyLines(Records(current, call))
    ensures var db := if call.0 == current then from.selected else call.0;
      Replay(from, Records(current, call)) == Loaded(Exec(from.dbs, db, call.1).dbs, db)
  {
    hide ExecDb, ToLower;
    if call.0 == current {
      ReplayOne(from, call.1);
    } else {
      SelectRecordSelects(from.dbs, from.selected, call.0);
      ReplayOne(from, SelectRecord(call.0));
      ReplayOne(Loaded(from.dbs, call.0), call.1);
      assert Records(current, call) == [SelectRecord(call.0)] + [call.1];
      ReplayConcat(from, [SelectRecord(call.0)], [call.1]);
    }
  }

  /** A request's record, executed in the database it is for, does what the request did. */
  lemma CallRedoes(s: Session, r: Request)
    requires s.Valid() && r.line != []
    ensures var e := Run1(s, r);
      && (e.call.None? ==> e.dbs == s.dbs)
      && (e.call.Some? ==>
            var (db, record) := e.call.value;
            && db < |s.dbs| && record != [] && ToLower(record[0]) != SELECT
            && Exec(s.dbs, db, record).dbs == e.dbs)
  {
    hide ExecDb, ToLower;
    if ToLower(r.line[0]) != SELECT {
      LogIsSufficient(s.dbs[s.SelectedBy(r.client)], r.line);
    }
  }

  /** A request and its records: the records redo on the databases what the request did. */
  lemma RecordsRedo(s: Session, r: Request)
    requires s.Valid() && r.line != []
    ensures var e := Run1(s, r);
      && (e.call.None? ==> e.dbs == s.dbs)
      && (e.call.Some? ==>
            && NonEmptyLines(Records(s.log.current, e.call.value))
            && Replay(Loaded(s.dbs, s.log.current), Records(s.log.current, e.call.value))
               == Loaded(e.dbs, e.call.value.0))
  {
    hide Run1, Replay, Exec, Records;
    CallRedoes(s, r);
    var e := Run1(s, r);
    if e.call.Some? {
      RecordsLand(Loaded(s.dbs, s.log.current), s.log.current, e.call.value);
    }
  }

  lemma ReplayOne(from: Loaded, cmd: CmdLine)
    requires from.selected < |from.dbs| && cmd != []
    ensures var e := Exec(from.dbs, from.selected, cmd);
      Replay(from, [cmd]) == Loaded(e.dbs, e.selected)
  {
    hide Exec;
    assert [cmd][..0] == [];
  }

  /** One more request keeps the log recoverable, when its record has no empty argument. */
  lemma StepIsRecoverable(s: Session, r: Request)
    requires s.Valid() && Recoverable(s) && r.line != []
    requires var call := Run1(s, r).call; call.Some? ==> WireSafe(call.value.1)
    ensures Recoverable(Next(s, r))
  {
    hide Feed, Exec, Records;
    var e := Run1(s, r);
    RecordsRedo(s, r);
    if e.call.Some? {
      var cmds := Records(s.log.current, e.call.value);
      RecordsAreSafe(s.log.current, e.call.value);
      LogGrows(s.log.bytes, cmds);
      ReplayConcat(Loaded(FreshStores(|s.dbs|), 0), LoggedCommands(s.log.bytes), cmds);
    }
  }

  lemma DeadStaysDead(bytes: Bytes, more: Bytes)
    requires Feed(REST, bytes).Dead?
    ensures Feed(REST, bytes + more).Dead?
  {
    hide Feed;
    FeedInPieces(REST, bytes, more);
  }

  /** A record with an empty argument makes the whole log unloadable. */
  lemma EmptyArgumentEndsLog(log: Log, call: Call)
    requires Clean(log.bytes) && call.0 <= INT64_MAX && Parsed(call.1) && !NoEmpty(call.1)
    ensures Feed(REST, Append(log, call).bytes).Dead?
  {
    hide Feed, Print;
    var cmds := Records(log.current, call);
    FeedAfterClean(log.bytes, PrintAll(cmds));
    EmptyArgumentKills(call.1, []);
    assert cmds[1..] == if call.0 == log.current then [] else [call.1];
    assert PrintAll([call.1]) == Print(call.1) + [] by {
      assert [call.1][1..] == [];
    }
    if call.0 != log.current {
      SelectRecordIsSafe(call.0);
      CommandRoundTrip(SelectRecord(call.0), PrintAll([call.1]));
    }
  }

  /** The shape of a request a client can have sent: its arguments are what the parser can produce.
      Its name can be anything, as in a status line taken for a command. */
  predicate ParsedRequest(line: CmdLine) {
    && 1 <= |line| <= UINT32_MAX
    && NoDollar(line[1..])
    && forall i | 1 <= i < |line| :: |line[i]| <= MAX_ARG
  }

  predicate ParsedRequests(reqs: seq<Request>) {
    forall i | 0 <= i < |reqs| :: ParsedRequest(reqs[i].line)
  }

  /** The records a run of requests appends, oldest first. */
  function CallsOf(s: Session, reqs: seq<Request>): seq<Call>
    requires s.Valid() && NonEmptyRequests(reqs)
    decreases |reqs|
  {
    if reqs == [] then []
    else
      var last := |reqs| - 1;
      var call := Run1(After(s, reqs[..last]), reqs[last]).call;
      CallsOf(s, reqs[..last]) + if call.Some? then [call.value] else []
  }

  predicate NoEmptyArguments(calls: seq<Call>) {
    forall i | 0 <= i < |calls| :: NoEmpty(calls[i].1)
  }

  /** A logged record has the shape of the request it came from. */
  lemma RecordIsParsed(s: Session, r: Request)
    requires s.Valid() && ParsedRequest(r.line)
    ensures var call := Run1(s, r).call; call.Some? ==> Parsed(call.value.1) && call.value.0 < |s.dbs|
  {
    hide ExecDb;
    var e := ExecDb(s.dbs[s.SelectedBy(r.client)], r.line);
    LogIsSufficient(s.dbs[s.SelectedBy(r.client)], r.line);
    if e.log.Some? {
      RecordName(s.dbs[s.SelectedBy(r.client)], r.line);
      var rec := e.log.value;
      assert rec == [rec[0]] + r.line[1..];
      assert forall i | 1 <= i < |rec| :: rec[i] == r.line[i];
    }
  }

  lemma RecordName(store: Store, line: CmdLine)
    requires line != []
    ensures var e := ExecDb(store, line);
      e.log.Some? ==> e.log.value != [] && e.log.value[0] != [] && |e.log.value[0]| < 10 && e.log.value[0][0] != DOLLAR
  {
    hide Execute, Lookup, ToLower, Name;
    var name := ToLower(line[0]);
    if Lookup(name).Some? && ValidateArity(Arity(Lookup(name).value), |line|) {
      ExecuteLogs(Lookup(name).value, store, line[1..]);
      NameIsRegistered(Lookup(name).value);
    }
  }

  /** Durability, exactly: after any run from a recoverable state, by any number of clients, loading
      the log gives the live databases and the database of the last record if and only if no logged
      record has an empty argument. Otherwise loading does not even return. */
  lemma {:induction false} DurabilityExactly(s: Session, reqs: seq<Request>)
    requires s.Valid() && Recoverable(s) && NonEmptyRequests(reqs) && ParsedRequests(reqs)
    ensures if NoEmptyArguments(CallsOf(s, reqs)) then Recoverable(After(s, reqs))
            else Load(|s.dbs|, After(s, reqs).log.bytes) == None
    decreases |reqs|
  {
    hide Feed, Run1, Replay;
    if reqs != [] {
      var last := |reqs| - 1;
      var front := reqs[..last];
      var t, r := After(s, front), reqs[last];
      DurabilityExactly(s, front);
      assert ParsedRequest(r.line);
      RecordIsParsed(t, r);
      var calls, call := CallsOf(s, front), Run1(t, r).call;
      if call.Some? {
        assert CallsOf(s, reqs)[|calls|] == call.value;
      }
      assert forall i | 0 <= i < |calls| :: CallsOf(s, reqs)[i] == calls[i];
      if !NoEmptyArguments(calls) {
        if call.Some? {
          DeadStaysDead(t.log.bytes, PrintAll(Records(t.log.current, call.value)));
        }
      } else if call.None? || NoEmpty(call.value.1) {
        if call.Some? {
          ParsedIsSafe(call.value.1);
        }
        StepIsRecoverable(t, r);
      } else {
        EmptyArgumentEndsLog(t.log, call.value);
      }
    }
  }

  /** A new server with an empty log is recoverable. */
  lemma FreshIsRecoverable(count: nat)
    requires 0 < count <= INT64_MAX
    ensures var s := Session(FreshStores(count), map[], Log([], 0)); s.Valid() && Recoverable(s)
  {
    NothingReceived();
  }

  /** The server after a restart, with any selections by then: the databases were loaded, and the new
      handler assumes database 0, whatever database the log leaves selected. */
  function Restarted(s: Session, selected: map<int, nat>): Session {
    Session(s.dbs, selected, Log(s.log.bytes, 0))
  }

  /** The calls are for one of `count` databases. */
  predicate CallsFit(count: nat, calls: seq<Call>) {
    forall i | 0 <= i < |calls| :: calls[i].0 < count && calls[i].1 != []
  }

  /** Every call's record executed in the call's database. */
  function Redo(dbs: seq<Store>, calls: seq<Call>): (r: seq<Store>)
    requires CallsFit(|dbs|, calls)
    ensures |r| == |dbs|
    decreases |calls|
  {
    if calls == [] then dbs
    else
      var last := |calls| - 1;
      Exec(Redo(dbs, calls[..last]), calls[last].0, calls[last].1).dbs
  }

  /** The calls for database 0 before any other are without a SELECT in front: they land in the
      database `into` that the old log leaves selected. */
  function Landed(into: nat, calls: seq<Call>): (r: seq<Call>)
    ensures |r| == |calls|
  {
    seq(|calls|, i requires 0 <= i < |calls| => (if ZeroUpTo(calls, i) then into else calls[i].0, calls[i].1))
  }

  predicate ZeroUpTo(calls: seq<Call>, i: nat)
    requires i < |calls|
  {
    forall j | 0 <= j <= i :: calls[j].0 == 0
  }

  function LastDb(first: nat, calls: seq<Call>): nat {
    if calls == [] then first else calls[|calls| - 1].0
  }

  lemma LandedSnoc(into: nat, calls: seq<Call>, call: Call)
    ensures var db := if call.0 == LastDb(0, calls) then LastDb(into, Landed(into, calls)) else call.0;
      Landed(into, calls + [call]) == Landed(into, calls) + [(db, call.1)]
  {
    var all, n := calls + [call], |calls|;
    assert all[n] == call && forall i | 0 <= i < n :: all[i] == calls[i];
    assert forall i | 0 <= i < n :: ZeroUpTo(all, i) <==> ZeroUpTo(calls, i);
    assert ZeroUpTo(all, n) <==> call.0 == 0 && (n == 0 || ZeroUpTo(calls, n - 1));
    assert Landed(into, all)[..|calls|] == Landed(into, calls);
  }

  lemma RedoSnoc(dbs: seq<Store>, calls: seq<Call>, call: Call)
    requires CallsFit(|dbs|, calls) && call.0 < |dbs| && call.1 != []
    ensures CallsFit(|dbs|, calls + [call])
    ensures Redo(dbs, calls + [call]) == Exec(Redo(dbs, calls), call.0, call.1).dbs
  {
    hide Exec;
    var all := calls + [call];
    assert all[..|all| - 1] == calls;
    assert forall i | 0 <= i < |all| :: all[i] == if i < |calls| then calls[i] else call;
  }

  lemma LandedFits(count: nat, into: nat, calls: seq<Call>)
    requires CallsFit(count, calls) && into < count
    ensures CallsFit(count, Landed(into, calls))
  {
  }

  /** A log written by a restarted server since the state `s`: the live databases are the calls redone
      on those of `s`, and loading redoes them where they land. */
  predicate LandsAs(s: Session, u: Session, calls: seq<Call>)
    requires s.Valid() && CallsFit(|s.dbs|, calls)
  {
    LandedFits(|s.dbs|, s.log.current, calls);
    var landed := Landed(s.log.current, calls);
    && Clean(u.log.bytes) && |u.dbs| == |s.dbs|
    && u.dbs == Redo(s.dbs, calls) && u.log.current == LastDb(0, calls)
    && Load(|s.dbs|, u.log.bytes) == Some(Loaded(Redo(s.dbs, landed), LastDb(s.log.current, landed)))
  }

  lemma LandsOneMore(s: Session, u: Session, calls: seq<Call>, r: Request)
    requires s.Valid() && u.Valid() && CallsFit(|s.dbs|, calls) && LandsAs(s, u, calls) && r.line != []
    requires var call := Run1(u, r).call; call.Some? ==> WireSafe(call.value.1)
    ensures var call := Run1(u, r).call;
      var all := calls + if call.Some? then [call.value] else [];
      CallsFit(|s.dbs|, all) && LandsAs(s, Next(u, r), all)
  {
    hide Feed, Exec, Records, Run1, Replay, LoggedCommands, Clean, WireSafe, Landed;
    CallRedoes(u, r);
    var call := Run1(u, r).call;
    if call.Some? {
      var into, cmds := s.log.current, Records(u.log.current, call.value);
      LandedFits(|s.dbs|, into, calls);
      var from := Load(|s.dbs|, u.log.bytes).value;
      RecordsAreSafe(u.log.current, call.value);
      LogGrows(u.log.bytes, cmds);
      RecordsLand(from, u.log.current, call.value);
      ReplayConcat(Loaded(FreshStores(|s.dbs|), 0), LoggedCommands(u.log.bytes), cmds);
      LandedSnoc(into, calls, call.value);
      RedoSnoc(s.dbs, calls, call.value);
      var db := if call.value.0 == u.log.current then from.selected else call.value.0;
      RedoSnoc(s.dbs, Landed(into, calls), (db, call.value.1));
      LandedFits(|s.dbs|, into, calls + [call.value]);
      StillAlive(u.log.bytes + PrintAll(cmds));
    } else {
      assert calls + [] == calls;
    }
  }

  lemma StillAlive(bytes: Bytes)
    requires Clean(bytes)
    ensures !Feed(REST, bytes).Dead?
  {
  }

  /** What a whole run after a restart leaves behind, exactly. Unless a logged record has an empty
      argument, which again makes the log unloadable, the live databases are the records redone in
      their own databases, and the loaded ones the same records redone where they land. */
  lemma {:induction false} RestartExactly(s: Session, selected: map<int, nat>, reqs: seq<Request>)
    requires s.Valid() && Recoverable(s) && Restarted(s, selected).Valid()
    requires NonEmptyRequests(reqs) && ParsedRequests(reqs)
    ensures var t := Restarted(s, selected);
      var calls, u := CallsOf(t, reqs), After(t, reqs);
      && CallsFit(|s.dbs|, calls)
      && if NoEmptyArguments(calls) then LandsAs(s, u, calls) else Load(|s.dbs|, u.log.bytes) == None
    decreases |reqs|
  {
    hide Feed, Run1, Replay, LandsAs, Clean;
    var t := Restarted(s, selected);
    if reqs == [] {
      NothingLanded(s, t);
    } else {
      var last := |reqs| - 1;
      var front := reqs[..last];
      var u, r := After(t, front), reqs[last];
      RestartExactly(s, selected, front);
      assert ParsedRequest(r.line);
      RecordIsParsed(u, r);
      var calls, call := CallsOf(t, front), Run1(u, r).call;
      assert CallsOf(t, reqs) == calls + if call.Some? then [call.value] else [];
      hide CallsOf, After, Next, Records, WireSafe, Landed, Redo;
      OneMoreCall(calls, call);
      CallRedoes(u, r);
      if !NoEmptyArguments(calls) {
        StaysUnloadable(u, r);
      } else if call.None? || NoEmpty(call.value.1) {
        if call.Some? {
          ParsedIsSafe(call.value.1);
        }
        LandsOneMore(s, u, calls, r);
      } else {
        LandsClean(s, u, calls);
        EmptyArgumentEndsLog(u.log, call.value);
        NextLog(u, r);
      }
    }
  }

  lemma OneMoreCall(calls: seq<Call>, call: Option<Call>)
    ensures var all := calls + if call.Some? then [call.value] else [];
      && (NoEmptyArguments(all) <==> NoEmptyArguments(calls) && (call.Some? ==> NoEmpty(call.value.1)))
      && forall count: nat | CallsFit(count, calls) && (call.Some? ==> call.value.0 < count && call.value.1 != []) ::
           CallsFit(count, all)
  {
    var all := calls + if call.Some? then [call.value] else [];
    assert forall i | 0 <= i < |calls| :: all[i] == calls[i];
    assert call.Some? ==> all[|calls|] == call.value;
  }

  lemma NextLog(u: Session, r: Request)
    requires u.Valid() && r.line != []
    ensures Next(u, r).log == Recorded(u.log, Run1(u, r).call)
  {
    hide Run1, Recorded;
  }

  lemma StaysUnloadable(u: Session, r: Request)
    requires u.Valid() && r.line != [] && Load(|u.dbs|, u.log.bytes) == None
    ensures Load(|u.dbs|, Next(u, r).log.bytes) == None
  {
    hide Feed, Run1, Replay;
    var call := Run1(u, r).call;
    if call.Some? {
      DeadStaysDead(u.log.bytes, PrintAll(Records(u.log.current, call.value)));
    }
  }

  lemma LandsClean(s: Session, u: Session, calls: seq<Call>)
    requires s.Valid() && CallsFit(|s.dbs|, calls) && LandsAs(s, u, calls)
    ensures Clean(u.log.bytes)
  {
  }

  lemma NothingLanded(s: Session, t: Session)
    requires s.Valid() && Recoverable(s) && t == Restarted(s, t.selected)
    ensures LandsAs(s, t, [])
  {
    hide Feed;
    assert Landed(s.log.current, []) == [];
  }

  /** All records land in their own databases exactly when the old log ends in database 0, or the
      first record is for another one. */
  lemma LandsAtHomeExactly(into: nat, calls: seq<Call>)
    ensures Landed(into, calls) == calls <==> into == 0 || calls == [] || calls[0].0 != 0
  {
    var landed := Landed(into, calls);
    if calls != [] {
      assert landed[0] == (if calls[0].0 == 0 then into else calls[0].0, calls[0].1);
      if calls[0].0 != 0 {
        assert forall i | 0 <= i < |calls| :: !ZeroUpTo(calls, i);
      }
    }
  }

  /** So durability holds across a restart, for whole runs, under that condition; and once there is a
      record, the log is as good as one that was never interrupted. */
  lemma DurableAcrossRestart(s: Session, selected: map<int, nat>, reqs: seq<Request>)
    requires s.Valid() && Recoverable(s) && Restarted(s, selected).Valid()
    requires NonEmptyRequests(reqs) && ParsedRequests(reqs)
    requires var calls := CallsOf(Restarted(s, selected), reqs);
      NoEmptyArguments(calls) && (s.log.current == 0 || calls == [] || calls[0].0 != 0)
    ensures var t := Restarted(s, selected);
      var u := After(t, reqs);
      && Load(|s.dbs|, u.log.bytes).Some? && Load(|s.dbs|, u.log.bytes).value.dbs == u.dbs
      && (CallsOf(t, reqs) != [] || s.log.current == 0 ==> Recoverable(u))
  {
    hide Feed, CallsOf, Landed, Load, Redo, After;
    RestartExactly(s, selected, reqs);
    LandsAtHomeExactly(s.log.current, CallsOf(Restarted(s, selected), reqs));
  }

  /** The first record after a restart is loaded into the database it was meant for, unless it is for
      database 0 and the old log ended in another one: then it is loaded into that other one, and
      the log is not recoverable any more. */
  lemma FirstRecordAfterRestart(s: Session, selected: map<int, nat>, r: Request)
    requires s.Valid() && Recoverable(s) && Restarted(s, selected).Valid() && r.line != []
    requires var call := Run1(Restarted(s, selected), r).call; call.Some? && WireSafe(call.value.1)
    ensures var t := Restarted(s, selected);
      var (db, record) := Run1(t, r).call.value;
      var loadedInto := if db == 0 then s.log.current else db;
      && Load(|s.dbs|, Next(t, r).log.bytes) == Some(Loaded(Exec(s.dbs, loadedInto, record).dbs, loadedInto))
      && (Recoverable(Next(t, r)) <==> db != 0 || s.log.current == 0)
  {
    hide Feed, Exec, Run1, Clean, Load;
    var t := Restarted(s, selected);
    var call := Run1(t, r).call.value;
    NothingLanded(s, t);
    LandsOneMore(s, t, [], r);
    CallRedoes(t, r);
    assert [] + [call] == [call];
    var landed := Landed(s.log.current, [call]);
    assert landed == [(if call.0 == 0 then s.log.current else call.0, call.1)];
    assert landed[..0] == [] && [call][..0] == [];
  }

  /** What that means: SET of a new key, by a client of database 0, after a restart from a log that
      ends in another database, comes back in that other database. */
  lemma RestartMisplaces(s: Session, client: int, key: Bytes, value: Bytes)
    requires s.Valid() && Recoverable(s) && s.log.current != 0
    requires SafeArg(key) && SafeArg(value) && key !in s.dbs[0] && key !in s.dbs[s.log.current]
    ensures var t := Next(Restarted(s, map[]), Request(client, [Name(Put), key, value]));
      var loaded := Load(|s.dbs|, t.log.bytes);
      && key in t.dbs[0] && key !in t.dbs[s.log.current]
      && loaded.Some? && key !in loaded.value.dbs[0] && key in loaded.value.dbs[s.log.current]
  {
    hide Feed, Load, Clean;
    var line := [Name(Put), key, value];
    var r := Request(client, line);
    NameIsRegistered(Put);
    assert line[1..] == [key, value] && [Name(Put)] + [key, value] == line;
    assert WireSafe(line);
    FirstRecordAfterRestart(s, map[], r);
  }

  /** Such a log is there after two requests to a new server. */
  lemma EndsInAnotherDatabase(count: nat, client: int, key: Bytes, value: Bytes)
    requires 2 <= count <= INT64_MAX && SafeArg(key) && SafeArg(value)
    ensures var s0 := Session(FreshStores(count), map[], Log([], 0));
      var reqs := [Request(client, SelectRecord(1)), Request(client, [Name(Put), key, value])];
      && s0.Valid() && NonEmptyRequests(reqs)
      && var s := After(s0, reqs);
         && Recoverable(s) && s.log.current == 1
         && s.dbs == s0.dbs[1 := map[key := Text(value)]]
  {
    hide Feed, Load, Clean, Recoverable, Name, ToLower, SelectRecord, Records, PrintAll;
    FreshIsRecoverable(count);
    var s0, line := Session(FreshStores(count), map[], Log([], 0)), [Name(Put), key, value];
    var first, second := Request(client, SelectRecord(1)), Request(client, line);
    SelectRecordSelects(s0.dbs, 0, 1);
    StepIsRecoverable(s0, first);
    var s1 := Next(s0, first);
    assert s1 == Session(s0.dbs, map[client := 1], Log([], 0));
    SetOnFresh(key, value);
    assert Run1(s1, second) == Executed(s0.dbs[1 := map[key := Text(value)]], 1, One(Ok), Some((1, line)));
    StepIsRecoverable(s1, second);
    var s2 := Next(s1, second);
    assert s2.log.current == 1 && s2.dbs == s0.dbs[1 := map[key := Text(value)]];
    hide Next, After;
    TwoRequests(s0, first, second);
  }

  lemma TwoRequests(s: Session, a: Request, b: Request)
    requires s.Valid() && a.line != [] && b.line != []
    ensures NonEmptyRequests([a, b]) && After(s, [a, b]) == Next(Next(s, a), b)
  {
    hide Next;
    assert [a, b][..1] == [a] && [a][..0] == [];
    assert After(s, []) == s;
    assert After(s, [a]) == Next(s, a);
  }

  lemma SetOnFresh(key: Bytes, value: Bytes)
    requires SafeArg(key) && SafeArg(value)
    ensures var line := [Name(Put), key, value];
      && WireSafe(line) && ToLower(line[0]) != SELECT
      && ExecDb(map[], line) == Effect(map[key := Text(value)], One(Ok), Some(line))
  {
    hide Name, ToLower;
    var line := [Name(Put), key, value];
    NameIsRegistered(Put);
    assert line[1..] == [key, value] && [Name(Put)] + [key, value] == line;
    assert map[][key := Text(value)] == map[key := Text(value)];
  }

  /** Loading skips every line that is no part of a command: statuses, errors, integers, anything else. */
  lemma OtherLinesAreSkipped(count: nat, bytes: Bytes, line: Bytes, rest: Bytes)
    requires count > 0 && Clean(bytes)
    requires line != [] && LF !in line && line[0] != STAR && line[0] != DOLLAR
    ensures Load(count, bytes + (line + CRLF + rest)) == Load(count, bytes + rest)
  {
    hide Feed, Replay;
    FeedAfterClean(bytes, line + CRLF + rest);
    FeedAfterClean(bytes, rest);
    var before, after := Feed(REST, bytes).out, Feed(REST, rest);
    var payload := ParseSingleLineReply(line, line + CRLF);
    LineFeed(REST, line, rest);
    assert (line + CRLF)[..|line|] == line;
    assert Feed(REST, line + CRLF + rest) == Then([payload], after);
    NoCommand(payload);
    CommandsInConcat(before, [payload] + after.out);
    CommandsInConcat([payload], after.out);
    CommandsInConcat(before, after.out);
    assert CommandsIn(before + ([payload] + after.out)) == CommandsIn(before + after.out);
    hide CommandsIn;
    assert LoggedCommands(bytes + (line + CRLF + rest)) == LoggedCommands(bytes + rest);
  }

  lemma NoCommand(p: Payload)
    requires p.Data? ==> !p.reply.MultiBulk?
    ensures CommandsIn([p]) == []
  {
    assert [p][..0] == [];
  }

  lemma RequestGrowsLog(s: Session, r: Request)
    requires s.Valid() && r.line != []
    ensures s.log.bytes <= Next(s, r).log.bytes
  {
    hide Exec;
  }

  lemma {:induction false} LogOnlyGrows(s: Session, reqs: seq<Request>, i: nat)
    requires s.Valid() && NonEmptyRequests(reqs) && i <= |reqs|
    ensures After(s, reqs[..i]).log.bytes <= After(s, reqs).log.bytes
    decreases |reqs|
  {
    hide Next;
    if i == |reqs| {
      assert reqs[..i] == reqs;
    } else {
      var last := |reqs| - 1;
      assert reqs[..last][..i] == reqs[..i];
      LogOnlyGrows(s, reqs[..last], i);
      RequestGrowsLog(After(s, reqs[..last]), reqs[last]);
    }
  }

  /** Part of a record, or of a SELECT and its record, changes no database. */
  lemma PartOfRecord(count: nat, bytes: Bytes, current: nat, call: Call, part: Bytes)
    requires 0 < count <= INT64_MAX && Clean(bytes) && call.0 < count && WireSafe(call.1)
    requires part < PrintAll(Records(current, call))
    ensures Load(count, bytes + part).Some?
    ensures Load(count, bytes + part).value.dbs == Load(count, bytes).value.dbs
  {
    hide Feed, Print, Exec;
    var record := Print(call.1);
    assert PrintAll([call.1]) == record by {
      assert [call.1][1..] == [];
    }
    if call.0 == current {
      CutInCommand(bytes, call.1, part);
    } else {
      var select := SelectRecord(call.0);
      SelectRecordIsSafe(call.0);
      assert Records(current, call)[1..] == [call.1];
      if |part| < |Print(select)| {
        assert part < Print(select);
        CutInCommand(bytes, select, part);
      } else {
        var more := part[|Print(select)|..];
        assert part == Print(select) + more;
        assert PrintAll([select]) == Print(select) by {
          assert [select][1..] == [];
        }
        LogGrows(bytes, [select]);
        CutInCommand(bytes + Print(select), call.1, more);
        assert bytes + part == (bytes + Print(select)) + more;
        var from := Loaded(FreshStores(count), 0);
        var before := Replay(from, LoggedCommands(bytes));
        ReplayConcat(from, LoggedCommands(bytes), [select]);
        ReplayOne(before, select);
        SelectRecordSelects(before.dbs, before.selected, call.0);
      }
    }
  }

  lemma CutInCommand(bytes: Bytes, cmd: CmdLine, part: Bytes)
    requires Clean(bytes) && WireSafe(cmd) && part < Print(cmd)
    ensures Feed(REST, bytes + part).Waiting? && LoggedCommands(bytes + part) == LoggedCommands(bytes)
  {
    hide Feed, Print;
    FeedAfterClean(bytes, part);
    TruncatedCommand(cmd, part);
    assert Feed(REST, bytes).out + [] == Feed(REST, bytes).out;
  }

  /** Crash consistency: a log cut at any byte, inside a record or between a SELECT and its record,
      loads the databases exactly as they were after the last request whose records are whole. */
  lemma {:induction false} CrashConsistency(s: Session, reqs: seq<Request>, k: nat) returns (i: nat)
    requires s.Valid() && Recoverable(s) && NonEmptyRequests(reqs) && ParsedRequests(reqs)
    requires NoEmptyArguments(CallsOf(s, reqs))
    requires |s.log.bytes| <= k <= |After(s, reqs).log.bytes|
    ensures i <= |reqs| && |After(s, reqs[..i]).log.bytes| <= k
    ensures i < |reqs| ==> k < |After(s, reqs[..i + 1]).log.bytes|
    ensures Load(|s.dbs|, After(s, reqs).log.bytes[..k]).Some?
    ensures Load(|s.dbs|, After(s, reqs).log.bytes[..k]).value.dbs == After(s, reqs[..i]).dbs
    decreases |reqs|
  {
    hide Feed, Run1, Replay, Load, Next, Recoverable, CallsOf;
    var log := After(s, reqs).log.bytes;
    if k == |log| {
      i := |reqs|;
      assert reqs[..i] == reqs && log[..k] == log;
      DurabilityExactly(s, reqs);
      IsLoaded(After(s, reqs));
      return;
    }
    var last := |reqs| - 1;
    var front := reqs[..last];
    var t := After(s, front);
    FrontIsSound(s, reqs);
    if |t.log.bytes| <= k {
      i := last;
      assert reqs[..i + 1] == reqs;
      DurabilityExactly(s, front);
      CutInRequest(t, reqs[last], k);
    } else {
      LogOnlyGrows(s, reqs, last);
      assert log[..k] == t.log.bytes[..k];
      i := CrashConsistency(s, front, k);
      assert front[..i] == reqs[..i] && front[..i + 1] == reqs[..i + 1];
    }
  }

  lemma FrontIsSound(s: Session, reqs: seq<Request>)
    requires s.Valid() && NonEmptyRequests(reqs) && ParsedRequests(reqs) && reqs != []
    requires NoEmptyArguments(CallsOf(s, reqs))
    ensures var front, r := reqs[..|reqs| - 1], reqs[|reqs| - 1];
      && ParsedRequests(front) && ParsedRequest(r.line)
      && NoEmptyArguments(CallsOf(s, front))
      && var call := Run1(After(s, front), r).call;
         call.Some? ==> NoEmpty(call.value.1)
  {
    hide Run1, Next, ParsedRequest, NoEmpty;
    var front, r := reqs[..|reqs| - 1], reqs[|reqs| - 1];
    var calls, call := CallsOf(s, front), Run1(After(s, front), r).call;
    assert forall j | 0 <= j < |calls| :: CallsOf(s, reqs)[j] == calls[j];
    if call.Some? {
      assert CallsOf(s, reqs)[|calls|] == call.value;
    }
    forall j | 0 <= j < |front| ensures ParsedRequest(front[j].line) {
      assert ParsedRequest(reqs[j].line);
    }
  }

  /** A log cut among the records of its last request loads the databases from before it. */
  lemma CutInRequest(t: Session, r: Request, k: nat)
    requires t.Valid() && Recoverable(t) && ParsedRequest(r.line)
    requires var call := Run1(t, r).call; call.Some? ==> NoEmpty(call.value.1)
    requires |t.log.bytes| <= k < |Next(t, r).log.bytes|
    ensures var cut := Load(|t.dbs|, Next(t, r).log.bytes[..k]); cut.Some? && cut.value.dbs == t.dbs
  {
    hide Feed, Run1, Replay, Load, PrintAll, Records, LoggedCommands, Clean;
    var call := Run1(t, r).call.value;
    RecordIsParsed(t, r);
    ParsedIsSafe(call.1);
    IsLoaded(t);
    var log := Next(t, r).log.bytes;
    var part := log[..k][|t.log.bytes|..];
    assert log[..k] == t.log.bytes + part;
    assert part < PrintAll(Records(t.log.current, call));
    PartOfRecord(|t.dbs|, t.log.bytes, t.log.current, call, part);
  }

  lemma IsLoaded(s: Session)
    requires s.Valid() && Recoverable(s)
    ensures Load(|s.dbs|, s.log.bytes) == Some(Loaded(s.dbs, s.log.current))
  {
  }

  function AppendAll(log: Log, calls: seq<Call>): Log
    decreases |calls|
  {
    if calls == [] then log else AppendAll(Append(log, calls[0]), calls[1..])
  }

  function Elide(current: nat, calls: seq<Call>): seq<CmdLine>
    decreases |calls|
  {
    if calls == [] then [] else Records(current, calls[0]) + Elide(calls[0].0, calls[1..])
  }

  /** The (database, command) pairs a log stands for, read with database `selected` to begin with. */
  function ReadBack(selected: nat, cmds: seq<CmdLine>): seq<Call>
    decreases |cmds|
  {
    if cmds == [] then []
    else
      var cmd := cmds[0];
      if |cmd| == 2 && ToLower(cmd[0]) == SELECT && ParseInt(cmd[1]).Some? && ParseInt(cmd[1]).value >= 0
      then ReadBack(ParseInt(cmd[1]).value, cmds[1..])
      else [(selected, cmd)] + ReadBack(selected, cmds[1..])
  }

  predicate Loggable(calls: seq<Call>) {
    forall i | 0 <= i < |calls| ::
      calls[i].0 <= INT64_MAX && WireSafe(calls[i].1) && ToLower(calls[i].1[0]) != SELECT
  }

  lemma {:induction false} AppendAllWrites(log: Log, calls: seq<Call>)
    ensures AppendAll(log, calls).bytes == log.bytes + PrintAll(Elide(log.current, calls))
    decreases |calls|
  {
    hide Print, Records;
    if calls == [] {
      assert log.bytes + [] == log.bytes;
    } else {
      var first, rest := Records(log.current, calls[0]), Elide(calls[0].0, calls[1..]);
      AppendAllWrites(Append(log, calls[0]), calls[1..]);
      PrintAllConcat(first, rest);
      Assoc(log.bytes, PrintAll(first), PrintAll(rest));
    }
  }

  lemma {:induction false} ElidedIsSafe(current: nat, calls: seq<Call>)
    requires Loggable(calls)
    ensures AllSafe(Elide(current, calls))
    decreases |calls|
  {
    hide WireSafe;
    if calls != [] {
      RecordsAreSafe(current, calls[0]);
      ElidedIsSafe(calls[0].0, calls[1..]);
    }
  }

  /** Reading from database `selected` the records a handler wrote from database `current`. */
  lemma {:induction false} ReadBackElided(current: nat, selected: nat, calls: seq<Call>)
    requires Loggable(calls)
    ensures ReadBack(selected, Elide(current, calls)) == calls
            <==> selected == current || calls == [] || calls[0].0 != current
    decreases |calls|
  {
    hide Records, ToLower;
    if calls == [] {
      ReadBackNothing(selected);
    } else {
      hide ReadBack;
      var call, rest := calls[0], Elide(calls[0].0, calls[1..]);
      assert calls == [call] + calls[1..];
      ReadBackRecords(current, selected, call, rest);
      ReadBackElided(call.0, call.0, calls[1..]);
    }
  }

  lemma ReadBackNothing(selected: nat)
    ensures ReadBack(selected, []) == []
  {
  }

  lemma ReadBackRecords(current: nat, selected: nat, call: Call, rest: seq<CmdLine>)
    requires call.0 <= INT64_MAX && call.1 != [] && ToLower(call.1[0]) != SELECT
    ensures var db := if call.0 == current then selected else call.0;
      ReadBack(selected, Records(current, call) + rest) == [(db, call.1)] + ReadBack(db, rest)
  {
    hide ToLower, Itoa, ParseInt;
    var cmds := Records(current, call) + rest;
    if call.0 == current {
      assert cmds[1..] == rest;
    } else {
      ParseIntOfItoa(call.0);
      SelectIsLowerCase();
      assert cmds[1..] == [call.1] + rest;
      assert ([call.1] + rest)[1..] == rest;
    }
  }

  lemma SelectIsLowerCase()
    ensures ToLower(SELECT) == SELECT
  {
  }

  /** Eliding SELECT records loses nothing: for every sequence of `AddAof` calls, in whatever order the
      mutex let them through, the bytes written read back as exactly those calls. A reader that starts
      in another database than the writer is right about them exactly when the first call makes the
      writer print a SELECT. */
  lemma SelectElisionExactly(calls: seq<Call>, current: nat, selected: nat)
    requires Loggable(calls)
    ensures ReadBack(selected, LoggedCommands(AppendAll(Log([], current), calls).bytes)) == calls
            <==> selected == current || calls == [] || calls[0].0 != current
  {
    hide Feed, ReadBack, Elide;
    AppendAllWrites(Log([], current), calls);
    ElidedIsSafe(current, calls);
    NothingReceived();
    LogGrows([], Elide(current, calls));
    assert LoggedCommands([]) == [];
    assert [] + Elide(current, calls) == Elide(current, calls);
    ReadBackElided(current, selected, calls);
  }

  /** Commands that arrive over a connection have the shape the results above ask for. */
  lemma ClientCommandsAreParsed(input: Bytes, cmd: CmdLine)
    requires Data(MultiBulk(cmd)) in Feed(REST, input).out
    requires forall i | 0 <= i < |cmd| :: |cmd[i]| <= MAX_ARG
    ensures Parsed(cmd) && ParsedRequest(cmd)
  {
    hide Feed;
    EmittedCommandsAreSound(REST, input);
    assert SoundPayload(Data(MultiBulk(cmd)));
  }

  predicate AllTexts(dbs: seq<Store>) {
    forall d | 0 <= d < |dbs| :: AllText(dbs[d])
  }

  /** In every run from databases of byte strings, every value stays a byte string, no request is
      answered WRONGTYPE, and a request leaves every database but the client's own alone. */
  lemma {:induction false} NoWrongTypeEver(s: Session, reqs: seq<Request>, r: Request)
    requires s.Valid() && NonEmptyRequests(reqs) && r.line != [] && AllTexts(s.dbs)
    ensures var t := After(s, reqs);
      && AllTexts(t.dbs)
      && Run1(t, r).answer != One(WRONG_TYPE)
      && forall d | 0 <= d < |t.dbs| && d != t.SelectedBy(r.client) :: Run1(t, r).dbs[d] == t.dbs[d]
    decreases |reqs|
  {
    hide ExecDb, ToLower, AllText;
    if reqs != [] {
      var front, last := reqs[..|reqs| - 1], reqs[|reqs| - 1];
      NoWrongTypeEver(s, front, last);
      var t := After(s, front);
      StaysText(t.dbs[t.SelectedBy(last.client)], last.line);
    }
    var t := After(s, reqs);
    StaysText(t.dbs[t.SelectedBy(r.client)], r.line);
    SelectTexts(|t.dbs|, t.SelectedBy(r.client), r.line);
  }

  lemma SelectTexts(count: nat, selected: nat, line: CmdLine)
    requires selected < count && line != []
    ensures Select(count, selected, line).1 != WRONG_TYPE
  {
    assert WRONG_TYPE.status[0] == Ascii("WRONGTYPE")[0] == 'W' as int as byte;
    assert Ascii("ERR invalid DB index")[0] == 'E' as int as byte;
    assert Ascii("ERR DB index out of range")[0] == 'E' as int as byte;
  }
}
