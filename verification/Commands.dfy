/** The commands of database/: what each does to one database, what it answers and what it logs. */
module Commands {
  import opened ByteStrings
  import opened Strconv
  import opened Replies
  import opened Wildcard
  import PatternCompiler

  /** `DataEntity`: a byte string, or a kind of value the server does not have yet. */
  datatype Entity = Text(value: Bytes) | Other

  type Store = map<Bytes, Entity>

  datatype Command =
    | Del | Exists | FlushDb | Type | Rename | Renamenx | Keys
    | Ping | Put | Get | Setnx | Getset | Strlen

  /** The registered name, in lower case. */
  function Name(c: Command): Bytes {
    match c
    case Del => [100, 101, 108]   // del
    case Exists => [101, 120, 105, 115, 116, 115]   // exists
    case FlushDb => [102, 108, 117, 115, 104, 100, 98]   // flushdb
    case Type => [116, 121, 112, 101]   // type
    case Rename => [114, 101, 110, 97, 109, 101]   // rename
    case Renamenx => [114, 101, 110, 97, 109, 101, 110, 120]   // renamenx
    case Keys => [107, 101, 121, 115]   // keys
    case Ping => [112, 105, 110, 103]   // ping
    case Put => [115, 101, 116]   // set
    case Get => [103, 101, 116]   // get
    case Setnx => [115, 101, 116, 110, 120]   // setnx
    case Getset => [103, 101, 116, 115, 101, 116]   // getset
    case Strlen => [115, 116, 114, 108, 101, 110]   // strlen
  }

  const SELECT: Bytes := [115, 101, 108, 101, 99, 116]   // select

  /** `cmdTable`. */
  function Lookup(name: Bytes): (c: Option<Command>)
    ensures c.Some? ==> Name(c.value) == name
  {
    if name == Name(Del) then Some(Del)
    else if name == Name(Exists) then Some(Exists)
    else if name == Name(FlushDb) then Some(FlushDb)
    else if name == Name(Type) then Some(Type)
    else if name == Name(Rename) then Some(Rename)
    else if name == Name(Renamenx) then Some(Renamenx)
    else if name == Name(Keys) then Some(Keys)
    else if name == Name(Ping) then Some(Ping)
    else if name == Name(Put) then Some(Put)
    else if name == Name(Get) then Some(Get)
    else if name == Name(Setnx) then Some(Setnx)
    else if name == Name(Getset) then Some(Getset)
    else if name == Name(Strlen) then Some(Strlen)
    else None
  }

  lemma NameIsRegistered(c: Command)
    ensures ToLower(Name(c)) == Name(c) && Lookup(Name(c)) == Some(c) && Name(c) != SELECT
    ensures Name(c) != [] && Name(c)[0] != DOLLAR && |Name(c)| < 10
  {
  }

  /** The registered arity; a negative one is a minimum. */
  function Arity(c: Command): int {
    match c
    case Del => -2
    case Exists => -2
    case FlushDb => -1
    case Type => 2
    case Rename => 3
    case Renamenx => 3
    case Keys => 2
    case Ping => 1
    case Put => 3
    case Get => 2
    case Setnx => 3
    case Getset => 3
    case Strlen => 2
  }

  predicate ValidateArity(arity: int, length: nat) {
    if arity >= 0 then arity == length else length >= -arity
  }

  /** A reply, or the array of some keys in whatever order the map is ranged over. */
  datatype Answer = One(reply: Reply) | Listing(keys: set<Bytes>)

  predicate NoDuplicates(s: seq<Bytes>) {
    forall i, j | 0 <= i < j < |s| :: s[i] != s[j]
  }

  /** Reply `r` is a correct form of the answer: a listing names each key exactly once. */
  ghost predicate Answers(a: Answer, r: Reply) {
    match a
    case One(reply) => r == reply
    case Listing(keys) => r.MultiBulk? && NoDuplicates(r.args) && forall k :: k in r.args <==> k in keys
  }

  /** What a command does: the new store, the answer, and the record for the log, if any. */
  datatype Effect = Effect(store: Store, answer: Answer, log: Option<CmdLine>)

  const WRONG_TYPE: Reply :=
    Error(Ascii("WRONGTYPE") + Ascii(" Operation against a key holding the wrong kind of value"))
  const NO_SUCH_KEY: Reply := Error(Ascii("no such key"))

  function KeySet(args: CmdLine): set<Bytes> {
    set k | k in args
  }

  /** One key more on one side of an intersection. */
  lemma CountOneMore(all: set<Bytes>, some: set<Bytes>, key: Bytes)
    ensures |all * (some + {key})| == |all * some| + if key in all && key !in some then 1 else 0
  {
    assert all * (some + {key}) == if key in all && key !in some then all * some + {key} else all * some;
  }

  function CountPresent(store: Store, args: CmdLine): nat {
    if args == [] then 0
    else CountPresent(store, args[..|args| - 1]) + if args[|args| - 1] in store then 1 else 0
  }

  function MatchingKeys(store: Store, pattern: Bytes): set<Bytes> {
    var items := PatternCompiler.Compile(pattern);
    set k | k in store && Match(items, k)
  }

  function BulkOf(e: Entity): Reply {
    if e.Text? then Bulk(e.value) else WRONG_TYPE
  }

  function Execute(c: Command, store: Store, args: CmdLine): Effect
    requires ValidateArity(Arity(c), |args| + 1)
  {
    var record := Some([Name(c)] + args);
    match c
    case Del =>
      var gone := store.Keys * KeySet(args);
      Effect(store - KeySet(args), One(Int(|gone|)), if |gone| > 0 then record else None)
    case Exists => Effect(store, One(Int(CountPresent(store, args))), None)
    case FlushDb => Effect(map[], One(Ok), record)
    case Type =>
      Effect(store, One(if args[0] !in store then Status(Ascii("none"))
                        else if store[args[0]].Text? then Status(Ascii("string"))
                        else UnknownError), None)
    case Rename =>
      if args[0] !in store then Effect(store, One(NO_SUCH_KEY), None)
      else Effect(store[args[1] := store[args[0]]] - {args[0]}, One(Ok), record)
    case Renamenx =>
      if args[1] in store then Effect(store, One(Int(0)), None)
      else if args[0] !in store then Effect(store, One(NO_SUCH_KEY), None)
      else Effect(store[args[1] := store[args[0]]] - {args[0]}, One(Int(1)), record)
    case Keys => Effect(store, Listing(MatchingKeys(store, args[0])), None)
    case Ping => Effect(store, One(Pong), None)
    case Put => Effect(store[args[0] := Text(args[1])], One(Ok), record)
    case Get => Effect(store, One(if args[0] in store then BulkOf(store[args[0]]) else NullBulk), None)
    case Setnx =>
      if args[0] in store then Effect(store, One(Int(0)), record)
      else Effect(store[args[0] := Text(args[1])], One(Int(1)), record)
    case Getset =>
      Effect(store[args[0] := Text(args[1])],
             One(if args[0] in store then BulkOf(store[args[0]]) else NullBulk), record)
    case Strlen =>
      Effect(store, One(if args[0] !in store then NullBulk
                        else if store[args[0]].Text? then Int(|store[args[0]].value|)
                        else WRONG_TYPE), None)
  }

  /** `DB.Exec`. */
  function ExecDb(store: Store, line: CmdLine): Effect
    requires line != []
  {
    var name := ToLower(line[0]);
    match Lookup(name)
    case None => Effect(store, One(Error(Ascii("ERR unknown command '") + name + Ascii("'"))), None)
    case Some(c) =>
      if !ValidateArity(Arity(c), |line|) then Effect(store, One(ArgNumError(name)), None)
      else Execute(c, store, line[1..])
  }

  predicate AllText(store: Store) {
    forall k | k in store :: store[k].Text?
  }

  /** The log holds exactly what is needed: a command without a record changed nothing, and its
      record, executed on the store it found, does to it what the command did. */
  lemma LogIsSufficient(store: Store, line: CmdLine)
    requires line != []
    ensures var e := ExecDb(store, line);
      && (e.log.None? ==> e.store == store)
      && (e.log.Some? ==> e.log.value != [] && e.log.value[1..] == line[1..]
                          && ToLower(e.log.value[0]) == ToLower(line[0]) != SELECT
                          && ExecDb(store, e.log.value) == e)
  {
    hide Execute, Ascii;
    var e := ExecDb(store, line);
    var name := ToLower(line[0]);
    if Lookup(name).Some? && ValidateArity(Arity(Lookup(name).value), |line|) {
      var c := Lookup(name).value;
      NameIsRegistered(c);
      ExecuteLogs(c, store, line[1..]);
      if e.log.Some? {
        assert e.log.value[1..] == line[1..];
      }
    }
  }

  lemma NothingRemoved(store: Store, keys: set<Bytes>)
    requires |store.Keys * keys| == 0
    ensures store - keys == store
  {
    assert store.Keys * keys == {};
    forall k | k in store ensures k !in keys {
      assert k !in store.Keys * keys;
    }
  }

  lemma ExecuteLogs(c: Command, store: Store, args: CmdLine)
    requires ValidateArity(Arity(c), |args| + 1)
    ensures var e := Execute(c, store, args);
      && (e.log.None? ==> e.store == store)
      && (e.log.Some? ==> e.log.value == [Name(c)] + args)
  {
    hide Name, MatchingKeys, Ascii;
    var e := Execute(c, store, args);
    if c.Del? && e.log.None? {
      NothingRemoved(store, KeySet(args));
    }
  }

  /** Every stored value stays a byte string, so no command ever answers WRONGTYPE. */
  lemma StaysText(store: Store, line: CmdLine)
    requires line != [] && AllText(store)
    ensures AllText(ExecDb(store, line).store)
    ensures ExecDb(store, line).answer != One(WRONG_TYPE) && ExecDb(store, line).answer != One(UnknownError)
  {
    hide Execute, Ascii, Lookup;
    var name := ToLower(line[0]);
    UnknownText(name);
    if Lookup(name).Some? && ValidateArity(Arity(Lookup(name).value), |line|) {
      ExecuteStaysText(Lookup(name).value, store, line[1..]);
    }
  }

  lemma UnknownText(name: Bytes)
    ensures Ascii("ERR unknown command '") + name + Ascii("'") != WRONG_TYPE.status
    ensures NO_SUCH_KEY != WRONG_TYPE
  {
    assert WRONG_TYPE.status[0] == Ascii("WRONGTYPE")[0];
    assert NO_SUCH_KEY.status[0] == Ascii("no such key")[0];
    assert (Ascii("ERR unknown command '") + name + Ascii("'"))[0] == Ascii("ERR unknown command '")[0];
  }

  lemma ExecuteStaysText(c: Command, store: Store, args: CmdLine)
    requires ValidateArity(Arity(c), |args| + 1) && AllText(store)
    ensures AllText(Execute(c, store, args).store)
    ensures Execute(c, store, args).answer != One(WRONG_TYPE)
    ensures Execute(c, store, args).answer != One(UnknownError)
  {
    UnknownText([]);
    hide Name, MatchingKeys, Ascii, KeySet, CountPresent;
  }
}
