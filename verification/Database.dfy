/** One database (database/db.go, keys.go, string.go) and the log handler it writes to (aof/aof.go). */
module Database {
  import opened ByteStrings
  import opened Strconv
  import opened Replies
  import opened Wildcard
  import opened Commands
  import opened Server
  import PatternCompiler
  import SyncDict

  /** `AofHandler`: the log file, of which only the appended bytes matter here. */
  class AofHandler {
    var aofFile: Bytes
    var currentDBIndex: nat

    function Value(): Log
      reads this
    {
      Log(aofFile, currentDBIndex)
    }

    constructor (content: Bytes)
      ensures Value() == Log(content, 0)
    {
      aofFile, currentDBIndex := content, 0;
    }

    method AddAof(dbIndex: nat, cmdLine: CmdLine)
      modifies this
      ensures Value() == Append(old(Value()), (dbIndex, cmdLine))
    {
      hide Print;
      assert PrintAll([cmdLine]) == Print(cmdLine) by {
        assert [cmdLine][1..] == [];
      }
      if dbIndex != currentDBIndex {
        assert [SelectRecord(dbIndex), cmdLine][1..] == [cmdLine];
        Assoc(aofFile, Print(SelectRecord(dbIndex)), Print(cmdLine));
        var data := WriteMultiBulk([SELECT, Itoa(dbIndex)]);
        aofFile := aofFile + data;
        currentDBIndex := dbIndex;
      }
      var data := WriteMultiBulk(cmdLine);
      aofFile := aofFile + data;
    }
  }

  /** `utils.ToCmdLine3`. */
  method ToCmdLine3(commandName: Bytes, args: CmdLine) returns (result: CmdLine)
    ensures result == [commandName] + args
  {
    var line := new Bytes[|args| + 1](_ => []);
    line[0] := commandName;
    for i := 0 to |args|
      invariant line[0] == commandName
      invariant forall j | 0 <= j < i :: line[j + 1] == args[j]
    {
      line[i + 1] := args[i];
    }
    result := line[..];
  }

  /** What a handler's log holds after a command in database `index` logged `record`. Without a
      handler the database's `addAof` does nothing. */
  function LogAfter(log: Log, index: nat, record: Option<CmdLine>): Log {
    Recorded(log, if record.Some? then Some((index, record.value)) else None)
  }

  class DB {
    const index: nat
    const data: SyncDict.Dict
    var aof: AofHandler?

    constructor (index: nat)
      ensures this.index == index && fresh(data) && data.m == map[] && aof == null
    {
      this.index := index;
      data := new SyncDict.Dict();
      aof := null;
    }

    method AddAof(line: CmdLine)
      modifies aof
      ensures aof != null ==> aof.Value() == LogAfter(old(aof.Value()), index, Some(line))
    {
      if aof != null {
        aof.AddAof(index, line);
      }
    }

    /** `result` and the new state are those of command `c`. */
    twostate predicate Did(c: Command, args: CmdLine, reply: Reply)
      requires ValidateArity(Arity(c), |args| + 1)
      reads this, data, aof
    {
      var e := Execute(c, old(data.m), args);
      && aof == old(aof)
      && data.m == e.store
      && Answers(e.answer, reply)
      && (aof != null ==> aof.Value() == LogAfter(old(aof.Value()), index, e.log))
    }

    method Removes(keys: seq<Bytes>) returns (deleted: int)
      modifies data
      ensures data.m == old(data.m) - KeySet(keys)
      ensures deleted == |old(data.m).Keys * KeySet(keys)|
    {
      deleted := 0;
      assert KeySet(keys[..0]) == {};
      for i := 0 to |keys|
        invariant deleted == |old(data.m).Keys * KeySet(keys[..i])|
        invariant data.m == old(data.m) - KeySet(keys[..i])
      {
        RemoveOneMore(old(data.m), keys, i);
        var removed := data.Remove(keys[i]);
        if removed > 0 {
          deleted := deleted + 1;
        }
      }
      assert keys[..|keys|] == keys;
    }

    lemma RemoveOneMore(store: Store, keys: seq<Bytes>, i: nat)
      requires i < |keys|
      ensures var gone, key := KeySet(keys[..i]), keys[i];
        && store - KeySet(keys[..i + 1]) == store - gone - {key}
        && |store.Keys * KeySet(keys[..i + 1])|
           == |store.Keys * gone| + if key in store - gone then 1 else 0
    {
      var gone, key := KeySet(keys[..i]), keys[i];
      assert keys[..i + 1] == keys[..i] + [key];
      assert KeySet(keys[..i + 1]) == gone + {key};
      hide KeySet;
      CountOneMore(store.Keys, gone, key);
      MinusOneMore(store, gone, key);
    }

    lemma MinusOneMore(store: Store, gone: set<Bytes>, key: Bytes)
      ensures store - (gone + {key}) == store - gone - {key}
      ensures key in store - gone <==> key in store && key !in gone
    {
    }

    method ExecDel(args: CmdLine) returns (reply: Reply)
      requires ValidateArity(Arity(Del), |args| + 1)
      modifies data, aof
      ensures Did(Del, args, reply)
    {
      hide KeySet, Name;
      var deleted := Removes(args);
      if deleted > 0 {
        var line := ToCmdLine3(Name(Del), args);
        AddAof(line);
      }
      return Int(deleted);
    }

    method ExecExists(args: CmdLine) returns (reply: Reply)
      requires ValidateArity(Arity(Exists), |args| + 1)
      ensures Did(Exists, args, reply)
    {
      var result := 0;
      for i := 0 to |args|
        invariant result == CountPresent(data.m, args[..i])
      {
        assert args[..i + 1][..i] == args[..i];
        if data.Get(args[i]).Some? {
          result := result + 1;
        }
      }
      assert args[..|args|] == args;
      return Int(result);
    }

    method ExecFlushDb(args: CmdLine) returns (reply: Reply)
      requires ValidateArity(Arity(FlushDb), |args| + 1)
      modifies data, aof
      ensures Did(FlushDb, args, reply)
    {
      data.Clear();
      var line := ToCmdLine3(Name(FlushDb), args);
      AddAof(line);
      return Ok;
    }

    method ExecType(args: CmdLine) returns (reply: Reply)
      requires ValidateArity(Arity(Type), |args| + 1)
      ensures Did(Type, args, reply)
    {
      match data.Get(args[0])
      case None => return Status(Ascii("none"));
      case Some(Text(_)) => return Status(Ascii("string"));
      case Some(Other) => return UnknownError;
    }

    method ExecRename(args: CmdLine) returns (reply: Reply)
      requires ValidateArity(Arity(Rename), |args| + 1)
      modifies data, aof
      ensures Did(Rename, args, reply)
    {
      var oldKey, newKey := args[0], args[1];
      match data.Get(oldKey)
      case None => return NO_SUCH_KEY;
      case Some(entity) =>
        var _ := data.Put(newKey, entity);
        var _ := data.Remove(oldKey);
        var line := ToCmdLine3(Name(Rename), args);
        AddAof(line);
        return Ok;
    }

    method ExecRenamenx(args: CmdLine) returns (reply: Reply)
      requires ValidateArity(Arity(Renamenx), |args| + 1)
      modifies data, aof
      ensures Did(Renamenx, args, reply)
    {
      var oldKey, newKey := args[0], args[1];
      if data.Get(newKey).Some? {
        return Int(0);
      }
      match data.Get(oldKey)
      case None => return NO_SUCH_KEY;
      case Some(entity) =>
        var _ := data.Put(newKey, entity);
        var _ := data.Remove(oldKey);
        var line := ToCmdLine3(Name(Renamenx), args);
        AddAof(line);
        return Int(1);
    }

    method ExecKeys(args: CmdLine) returns (reply: Reply)
      requires ValidateArity(Arity(Keys), |args| + 1)
      ensures Did(Keys, args, reply)
    {
      var pattern := PatternCompiler.CompilePattern(args[0]);
      var result: seq<Bytes> := [];
      var keys := data.Keys();
      for i := 0 to |keys|
        invariant NoDuplicates(result)
        invariant forall k :: k in result <==> k in keys[..i] && Match(pattern, k)
      {
        assert keys[..i + 1] == keys[..i] + [keys[i]];
        assert keys[i] !in keys[..i];
        var matched := IsMatch(pattern, keys[i]);
        if matched {
          result := result + [keys[i]];
        }
      }
      assert keys[..|keys|] == keys;
      return MultiBulk(result);
    }

    method ExecGet(args: CmdLine) returns (reply: Reply)
      requires ValidateArity(Arity(Get), |args| + 1)
      ensures Did(Get, args, reply)
    {
      match data.Get(args[0])
      case None => return NullBulk;
      case Some(Text(val)) => return Bulk(val);
      case Some(Other) => return WRONG_TYPE;
    }

    method ExecSet(args: CmdLine) returns (reply: Reply)
      requires ValidateArity(Arity(Put), |args| + 1)
      modifies data, aof
      ensures Did(Put, args, reply)
    {
      var _ := data.Put(args[0], Text(args[1]));
      var line := ToCmdLine3(Name(Put), args);
      AddAof(line);
      return Ok;
    }

    method ExecSetnx(args: CmdLine) returns (reply: Reply)
      requires ValidateArity(Arity(Setnx), |args| + 1)
      modifies data, aof
      ensures Did(Setnx, args, reply)
    {
      var result := data.PutIfAbsent(args[0], Text(args[1]));
      var line := ToCmdLine3(Name(Setnx), args);
      AddAof(line);
      return Int(result);
    }

    method ExecGetset(args: CmdLine) returns (reply: Reply)
      requires ValidateArity(Arity(Getset), |args| + 1)
      modifies data, aof
      ensures Did(Getset, args, reply)
    {
      var oldEntity := data.Get(args[0]);
      var _ := data.Put(args[0], Text(args[1]));
      var line := ToCmdLine3(Name(Getset), args);
      AddAof(line);
      match oldEntity
      case None => return NullBulk;
      case Some(Text(val)) => return Bulk(val);
      case Some(Other) => return WRONG_TYPE;
    }

    method ExecStrlen(args: CmdLine) returns (reply: Reply)
      requires ValidateArity(Arity(Strlen), |args| + 1)
      ensures Did(Strlen, args, reply)
    {
      match data.Get(args[0])
      case None => return NullBulk;
      case Some(Text(val)) => return Int(|val|);
      case Some(Other) => return WRONG_TYPE;
    }

    /** `DB.Exec`: look the command up, check its arity, run its executor. */
    method Exec(line: CmdLine) returns (reply: Reply)
      requires line != []
      modifies data, aof
      ensures var e := ExecDb(old(data.m), line);
        && aof == old(aof)
        && data.m == e.store
        && Answers(e.answer, reply)
        && (aof != null ==> aof.Value() == LogAfter(old(aof.Value()), index, e.log))
    {
      hide Execute, ToLower, Lookup, Answers, Ascii;
      var cmdName := ToLower(line[0]);
      match Lookup(cmdName) {
        case None =>
          reply := Error(Ascii("ERR unknown command '") + cmdName + Ascii("'"));
          AnswersOne(reply);
        case Some(c) =>
          if !ValidateArity(Arity(c), |line|) {
            reply := ArgNumError(cmdName);
            AnswersOne(reply);
          } else {
            reply := Dispatch(c, line[1..]);
          }
      }
    }

    lemma AnswersOne(reply: Reply)
      ensures Answers(One(reply), reply)
    {
    }

    method Dispatch(c: Command, args: CmdLine) returns (reply: Reply)
      requires ValidateArity(Arity(c), |args| + 1)
      modifies data, aof
      ensures Did(c, args, reply)
    {
      match c
      case Del => reply := ExecDel(args);
      case Exists => reply := ExecExists(args);
      case FlushDb => reply := ExecFlushDb(args);
      case Type => reply := ExecType(args);
      case Rename => reply := ExecRename(args);
      case Renamenx => reply := ExecRenamenx(args);
      case Keys => reply := ExecKeys(args);
      case Ping => reply := Pong;
      case Put => reply := ExecSet(args);
      case Get => reply := ExecGet(args);
      case Setnx => reply := ExecSetnx(args);
      case Getset => reply := ExecGetset(args);
      case Strlen => reply := ExecStrlen(args);
    }
  }
}
