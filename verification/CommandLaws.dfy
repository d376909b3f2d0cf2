/** What a client sees of the commands together, each by its name as a text: reads after writes, moves,
    deletions, patterns, and what is refused. */
module CommandLaws {
  import opened ByteStrings
  import opened Replies
  import opened Wildcard
  import opened PatternCompiler
  import opened Globs
  import opened Commands

  /** A command sent by its name, as a text in small letters. */
  function Run(store: Store, word: string, args: CmdLine): Effect {
    ExecDb(store, [Ascii(word)] + args)
  }

  /** However its letters are spelt. */
  lemma SpellingIsFree(store: Store, w: Bytes, word: string, args: CmdLine)
    requires InSmallLetters(word) && Spelt(w, word)
    ensures ExecDb(store, [w] + args) == Run(store, word, args)
  {
    SpeltExactly(w, word);
    SpeltExactly(Ascii(word), word);
    assert ([w] + args)[1..] == ([Ascii(word)] + args)[1..];
    hide Execute, Ascii, Lookup, ToLower;
  }

  function Word(c: Command): string {
    match c
    case Del => "del"
    case Exists => "exists"
    case FlushDb => "flushdb"
    case Type => "type"
    case Rename => "rename"
    case Renamenx => "renamenx"
    case Keys => "keys"
    case Ping => "ping"
    case Put => "set"
    case Get => "get"
    case Setnx => "setnx"
    case Getset => "getset"
    case Strlen => "strlen"
  }

  lemma NameIsWord(c: Command)
    ensures Name(c) == Ascii(Word(c)) && InSmallLetters(Word(c))
  {
    hide Ascii;
  }

  lemma Dispatched(store: Store, c: Command, args: CmdLine)
    ensures if ValidateArity(Arity(c), |args| + 1) then Run(store, Word(c), args) == Execute(c, store, args)
            else Run(store, Word(c), args) == Effect(store, One(ArgNumError(Ascii(Word(c)))), None)
  {
    hide Execute, Name, Word, Ascii;
    NameIsRegistered(c);
    NameIsWord(c);
    assert ([Name(c)] + args)[1..] == args;
  }

  /** The numbers of arguments each command takes; with any other it answers an error and does nothing. */
  predicate Refused(store: Store, word: string, args: CmdLine) {
    Run(store, word, args) == Effect(store, One(ArgNumError(Ascii(word))), None)
  }

  lemma RefusedExactly(store: Store, c: Command, args: CmdLine)
    ensures Refused(store, Word(c), args) <==> !ValidateArity(Arity(c), |args| + 1)
  {
    hide Run, Word, Ascii, Arity, Execute;
    Dispatched(store, c, args);
    if ValidateArity(Arity(c), |args| + 1) {
      NoArgNumError(store, c, args);
    }
  }

  lemma NoArgNumError(store: Store, c: Command, args: CmdLine)
    requires ValidateArity(Arity(c), |args| + 1)
    ensures var a := Execute(c, store, args).answer; a.One? ==> !a.reply.ArgNumError?
  {
    hide Name, Ascii, CountPresent, KeySet, MatchingKeys;
  }

  lemma Arities(store: Store, args: CmdLine)
    ensures Refused(store, "ping", args) <==> |args| != 0
    ensures Refused(store, "get", args) <==> |args| != 1
    ensures Refused(store, "strlen", args) <==> |args| != 1
    ensures Refused(store, "type", args) <==> |args| != 1
    ensures Refused(store, "keys", args) <==> |args| != 1
    ensures Refused(store, "set", args) <==> |args| != 2
    ensures Refused(store, "setnx", args) <==> |args| != 2
    ensures Refused(store, "getset", args) <==> |args| != 2
    ensures Refused(store, "rename", args) <==> |args| != 2
    ensures Refused(store, "renamenx", args) <==> |args| != 2
    ensures Refused(store, "del", args) <==> |args| < 1
    ensures Refused(store, "exists", args) <==> |args| < 1
    ensures !Refused(store, "flushdb", args)
  {
    hide Refused;
    RefusedExactly(store, Ping, args);
    RefusedExactly(store, Get, args);
    RefusedExactly(store, Strlen, args);
    RefusedExactly(store, Type, args);
    RefusedExactly(store, Keys, args);
    RefusedExactly(store, Put, args);
    RefusedExactly(store, Setnx, args);
    RefusedExactly(store, Getset, args);
    RefusedExactly(store, Rename, args);
    RefusedExactly(store, Renamenx, args);
    RefusedExactly(store, Del, args);
    RefusedExactly(store, Exists, args);
    RefusedExactly(store, FlushDb, args);
  }

  const WORDS: seq<string> := ["del", "exists", "flushdb", "type", "rename", "renamenx", "keys", "ping", "set", "get",
                               "setnx", "getset", "strlen"]

  predicate IsCommand(w: Bytes) {
    exists i | 0 <= i < |WORDS| :: Spelt(w, WORDS[i])
  }

  /** Any other name is answered by an error, and nothing is done. */
  lemma UnknownCommand(store: Store, w: Bytes, args: CmdLine)
    requires !IsCommand(w)
    ensures ExecDb(store, [w] + args)
            == Effect(store, One(Error(Ascii("ERR unknown command '") + ToLower(w) + Ascii("'"))), None)
  {
    hide Spelt, Ascii, ToLower, Execute, Name, Lookup;
    match Lookup(ToLower(w))
    case None =>
    case Some(c) =>
      NameIsWord(c);
      SpeltExactly(w, Word(c));
      WordIsListed(c);
  }

  lemma WordIsListed(c: Command)
    ensures exists i :: 0 <= i < |WORDS| && WORDS[i] == Word(c)
  {
    var i := match c
      case Del => 0 case Exists => 1 case FlushDb => 2 case Type => 3 case Rename => 4 case Renamenx => 5
      case Keys => 6 case Ping => 7 case Put => 8 case Get => 9 case Setnx => 10 case Getset => 11 case Strlen => 12;
    assert WORDS[i] == Word(c);
  }

  /** GET answers the last value written to its key, by SET, by GETSET, or by a SETNX that found the
      key free; and a write to one key is not seen under another. */
  lemma ReadsLastWrite(store: Store, key: Bytes, value: Bytes, other: Bytes)
    requires other != key
    ensures var s := Run(store, "set", [key, value]).store;
      && Run(s, "get", [key]).answer == One(Bulk(value))
      && Run(s, "get", [other]).answer == Run(store, "get", [other]).answer
    ensures var s := Run(store, "getset", [key, value]).store;
      && Run(s, "get", [key]).answer == One(Bulk(value))
      && Run(s, "get", [other]).answer == Run(store, "get", [other]).answer
    ensures var e := Run(store, "setnx", [key, value]);
      && e.answer == One(Int(if key in store then 0 else 1))
      && Run(e.store, "get", [key]).answer
         == (if key in store then Run(store, "get", [key]).answer else One(Bulk(value)))
      && Run(e.store, "get", [other]).answer == Run(store, "get", [other]).answer
    ensures Run(store, "set", [key, value]).answer == One(Ok)
    ensures Run(store, "getset", [key, value]).answer == Run(store, "get", [key]).answer
  {
    hide Run;
    WriteIsRead(store, Put, key, value, other);
    WriteIsRead(store, Getset, key, value, other);
    SetnxIsRead(store, key, value, other);
    WriteAnswers(store, key, value);
  }

  lemma WriteAnswers(store: Store, key: Bytes, value: Bytes)
    ensures Run(store, "set", [key, value]).answer == One(Ok)
    ensures Run(store, "getset", [key, value]).answer == Run(store, "get", [key]).answer
  {
    Dispatched(store, Put, [key, value]);
    Dispatched(store, Getset, [key, value]);
    Dispatched(store, Get, [key]);
    hide Run, Name, Ascii, CountPresent, KeySet, MatchingKeys;
  }

  lemma GetAnswers(store: Store, key: Bytes)
    ensures Run(store, "get", [key]).answer == One(if key in store then BulkOf(store[key]) else NullBulk)
  {
    Dispatched(store, Get, [key]);
    hide Run, Name, Ascii, CountPresent, KeySet, MatchingKeys;
  }

  lemma WriteIsRead(store: Store, c: Command, key: Bytes, value: Bytes, other: Bytes)
    requires other != key && (c.Put? || c.Getset?)
    ensures var s := Run(store, Word(c), [key, value]).store;
      && Run(s, "get", [key]).answer == One(Bulk(value))
      && Run(s, "get", [other]).answer == Run(store, "get", [other]).answer
  {
    var s := Run(store, Word(c), [key, value]).store;
    Dispatched(store, c, [key, value]);
    hide Run, Name, Ascii, CountPresent, KeySet, MatchingKeys;
    assert s == store[key := Text(value)];
    hide Execute;
    GetAnswers(s, key);
    GetAnswers(s, other);
    GetAnswers(store, other);
  }

  lemma SetnxIsRead(store: Store, key: Bytes, value: Bytes, other: Bytes)
    requires other != key
    ensures var e := Run(store, "setnx", [key, value]);
      && e.answer == One(Int(if key in store then 0 else 1))
      && Run(e.store, "get", [key]).answer
         == (if key in store then Run(store, "get", [key]).answer else One(Bulk(value)))
      && Run(e.store, "get", [other]).answer == Run(store, "get", [other]).answer
  {
    var s := Run(store, "setnx", [key, value]).store;
    Dispatched(store, Setnx, [key, value]);
    hide Run, Name, Ascii, CountPresent, KeySet, MatchingKeys;
    assert s == if key in store then store else store[key := Text(value)];
    assert Run(store, "setnx", [key, value]).answer == One(Int(if key in store then 0 else 1));
    hide Execute;
    GetAnswers(s, key);
    GetAnswers(s, other);
    GetAnswers(store, key);
    GetAnswers(store, other);
  }

  /** RENAME makes the old name's value the new name's and leaves nothing under the old name, not even
      when both are the same; RENAMENX does so only when the new name is free. */
  lemma RenameMoves(store: Store, old': Bytes, new': Bytes, other: Bytes)
    requires other != old' && other != new' && old' in store
    ensures var e := Run(store, "rename", [old', new']);
      && e.answer == One(Ok) && old' !in e.store
      && (old' != new' ==> new' in e.store && e.store[new'] == store[old'])
      && (other in e.store <==> other in store) && (other in e.store ==> e.store[other] == store[other])
    ensures var e := Run(store, "renamenx", [old', new']);
      && e.store == (if new' in store then store else Run(store, "rename", [old', new']).store)
      && e.answer == One(Int(if new' in store then 0 else 1))
  {
    Dispatched(store, Rename, [old', new']);
    Dispatched(store, Renamenx, [old', new']);
    hide Run, Name, Ascii;
  }

  /** A key that is not there cannot be renamed: an error, and nothing is done. */
  lemma RenameMissing(store: Store, old': Bytes, new': Bytes)
    requires old' !in store
    ensures Run(store, "rename", [old', new']) == Effect(store, One(Error(Ascii("no such key"))), None)
    ensures Run(store, "renamenx", [old', new'])
            == Effect(store, One(if new' in store then Int(0) else Error(Ascii("no such key"))), None)
  {
    Dispatched(store, Rename, [old', new']);
    Dispatched(store, Renamenx, [old', new']);
    hide Run, Name, Ascii;
  }

  /** What goes into the log: the command's name and its arguments. */
  predicate Logs(store: Store, word: string, args: CmdLine) {
    Run(store, word, args).log == Some([Ascii(word)] + args)
  }

  predicate LogsNothing(store: Store, word: string, args: CmdLine) {
    Run(store, word, args).log == None
  }

  /** Writes are logged, SETNX and FLUSHDB even when they change nothing; DEL, RENAME and RENAMENX only when
      they did something. */
  lemma WritesAreLogged(store: Store, key: Bytes, value: Bytes, args: CmdLine)
    ensures Logs(store, "set", [key, value]) && Logs(store, "getset", [key, value])
    ensures Logs(store, "setnx", [key, value]) && Logs(store, "flushdb", args)
    ensures if key in store then Logs(store, "rename", [key, value]) else LogsNothing(store, "rename", [key, value])
    ensures if key in store && value !in store then Logs(store, "renamenx", [key, value])
            else LogsNothing(store, "renamenx", [key, value])
    ensures args != [] ==> if Run(store, "del", args).answer == One(Int(0)) then LogsNothing(store, "del", args)
                           else Logs(store, "del", args)
  {
    hide Run, Execute, Ascii, Name;
    LogsWhen(store, Put, [key, value]);
    LogsWhen(store, Getset, [key, value]);
    LogsWhen(store, Setnx, [key, value]);
    LogsWhen(store, FlushDb, args);
    LogsWhen(store, Rename, [key, value]);
    LogsWhen(store, Renamenx, [key, value]);
    if args != [] {
      LogsWhen(store, Del, args);
      Dispatched(store, Del, args);
    }
  }

  lemma LogsWhen(store: Store, c: Command, args: CmdLine)
    requires ValidateArity(Arity(c), |args| + 1)
    requires c.Put? || c.Getset? || c.Setnx? || c.FlushDb? || c.Rename? || c.Renamenx? || c.Del?
    ensures var logged := match c
        case Rename => args[0] in store
        case Renamenx => args[0] in store && args[1] !in store
        case Del => Execute(Del, store, args).answer != One(Int(0))
        case _ => true;
      if logged then Logs(store, Word(c), args) else LogsNothing(store, Word(c), args)
  {
    NameIsWord(c);
    Dispatched(store, c, args);
    hide Run, Word, Name, Ascii, CountPresent, KeySet, MatchingKeys;
  }

  /** Everything else changes nothing and logs nothing. */
  lemma ReadersChangeNothing(store: Store, key: Bytes, args: CmdLine)
    ensures LogsNothing(store, "get", [key]) && Run(store, "get", [key]).store == store
    ensures LogsNothing(store, "strlen", [key]) && Run(store, "strlen", [key]).store == store
    ensures LogsNothing(store, "type", [key]) && Run(store, "type", [key]).store == store
    ensures LogsNothing(store, "keys", [key]) && Run(store, "keys", [key]).store == store
    ensures args != [] ==> LogsNothing(store, "exists", args) && Run(store, "exists", args).store == store
    ensures Run(store, "ping", []) == Effect(store, One(Pong), None)
  {
    Dispatched(store, Get, [key]);
    Dispatched(store, Strlen, [key]);
    Dispatched(store, Type, [key]);
    Dispatched(store, Keys, [key]);
    Dispatched(store, Exists, args);
    Dispatched(store, Ping, []);
    hide Run, Name, Ascii, CountPresent, KeySet, MatchingKeys, BulkOf;
  }

  /** How many of the keys, as a set, are there. */
  function Common(store: Store, keys: CmdLine): nat {
    |store.Keys * KeySet(keys)|
  }

  lemma {:induction false} CountIsIntersection(store: Store, keys: CmdLine)
    requires NoDuplicates(keys)
    ensures CountPresent(store, keys) == Common(store, keys)
    decreases |keys|
  {
    hide CountPresent, Common, NoDuplicates;
    if keys == [] {
      CountNone(store);
    } else {
      var front, last := keys[..|keys| - 1], keys[|keys| - 1];
      assert keys == front + [last];
      DistinctKeys(front, last);
      CountIsIntersection(store, front);
      CommonSnoc(store, front, last);
      CountSnoc(store, front, last);
    }
  }

  lemma CommonSnoc(store: Store, front: CmdLine, last: Bytes)
    requires last !in front
    ensures Common(store, front + [last]) == Common(store, front) + if last in store then 1 else 0
  {
    KeySetSnoc(front, last);
    CountOneMore(store.Keys, KeySet(front), last);
    hide KeySet;
  }

  lemma CountNone(store: Store)
    ensures CountPresent(store, []) == Common(store, []) == 0
  {
    assert store.Keys * KeySet([]) == {};
  }

  lemma CountSnoc(store: Store, front: CmdLine, last: Bytes)
    ensures CountPresent(store, front + [last]) == CountPresent(store, front) + if last in store then 1 else 0
  {
    assert (front + [last])[..|front|] == front;
  }

  lemma DistinctKeys(front: CmdLine, last: Bytes)
    requires NoDuplicates(front + [last])
    ensures NoDuplicates(front) && last !in front
  {
    var keys := front + [last];
    assert keys[|front|] == last && forall i | 0 <= i < |front| :: keys[i] == front[i];
  }

  lemma KeySetSnoc(front: CmdLine, last: Bytes)
    ensures KeySet(front + [last]) == KeySet(front) + {last}
    ensures last in KeySet(front) <==> last in front
  {
  }

  /** EXISTS counts repeated keys again: for two lists in a row it answers the sum. */
  lemma ExistsAdds(store: Store, a: CmdLine, b: CmdLine)
    requires a != [] && b != []
    ensures exists m: nat, n: nat ::
              && Run(store, "exists", a).answer == One(Int(m)) && Run(store, "exists", b).answer == One(Int(n))
              && Run(store, "exists", a + b).answer == One(Int(m + n))
  {
    Dispatched(store, Exists, a);
    Dispatched(store, Exists, b);
    Dispatched(store, Exists, a + b);
    hide Run, Name, Ascii;
    CountConcat(store, a, b);
    hide CountPresent;
    assert Run(store, "exists", a).answer == One(Int(CountPresent(store, a)));
  }

  lemma {:induction false} CountConcat(store: Store, a: CmdLine, b: CmdLine)
    ensures CountPresent(store, a + b) == CountPresent(store, a) + CountPresent(store, b)
    decreases |b|
  {
    if b == [] {
      assert a + b == a;
    } else {
      var front, last := b[..|b| - 1], b[|b| - 1];
      CountConcat(store, a, front);
      CountSnoc(store, front, last);
      CountSnoc(store, a + front, last);
      assert b == front + [last] && a + b == (a + front) + [last];
    }
  }

  lemma {:induction false} CountNothing(store: Store, keys: CmdLine)
    requires forall k | k in keys :: k !in store
    ensures CountPresent(store, keys) == 0
    decreases |keys|
  {
    if keys != [] {
      assert keys[|keys| - 1] in keys;
      CountNothing(store, keys[..|keys| - 1]);
    }
  }

  /** DEL answers what EXISTS would have, its keys being distinct; afterwards EXISTS answers 0 for them,
      and every other key is as it was. */
  lemma DelAgreesWithExists(store: Store, keys: CmdLine, other: Bytes)
    requires keys != [] && other !in keys
    ensures NoDuplicates(keys) ==> Run(store, "del", keys).answer == Run(store, "exists", keys).answer
    ensures var s := Run(store, "del", keys).store;
      && Run(s, "exists", keys).answer == One(Int(0))
      && (other in s <==> other in store) && (other in s ==> s[other] == store[other])
  {
    var s := Run(store, "del", keys).store;
    Dispatched(store, Del, keys);
    Dispatched(store, Exists, keys);
    Dispatched(s, Exists, keys);
    hide ExecDb, Name, Ascii;
    if NoDuplicates(keys) {
      CountIsIntersection(store, keys);
    }
    forall k | k in keys ensures k !in s {
      assert k in KeySet(keys);
    }
    CountNothing(s, keys);
  }

  /** Repeated keys are deleted, and counted, once. */
  lemma DelIgnoresRepetition(store: Store, a: CmdLine, b: CmdLine)
    requires a != [] && b != [] && forall k :: k in a <==> k in b
    ensures Run(store, "del", a).store == Run(store, "del", b).store
    ensures Run(store, "del", a).answer == Run(store, "del", b).answer
  {
    Dispatched(store, Del, a);
    Dispatched(store, Del, b);
    hide ExecDb, Name, Ascii;
    assert KeySet(a) == KeySet(b);
  }

  /** TYPE says none, STRLEN and GET say null, exactly for the keys EXISTS does not count; all others are
      strings, and the length is that of the value GET answers. */
  lemma ReadersAgree(store: Store, key: Bytes)
    requires AllText(store)
    ensures Run(store, "exists", [key]).answer == One(Int(if key in store then 1 else 0))
    ensures Run(store, "type", [key]).answer == One(Status(Ascii(if key in store then "string" else "none")))
    ensures key !in store ==> Run(store, "get", [key]).answer == Run(store, "strlen", [key]).answer == One(NullBulk)
    ensures key in store ==> exists v :: Run(store, "get", [key]).answer == One(Bulk(v))
                                         && Run(store, "strlen", [key]).answer == One(Int(|v|))
  {
    hide Run, Ascii;
    ExistsTells(store, key);
    TypeTells(store, key);
    GetTells(store, key);
  }

  lemma ExistsTells(store: Store, key: Bytes)
    ensures Run(store, "exists", [key]).answer == One(Int(if key in store then 1 else 0))
  {
    Dispatched(store, Exists, [key]);
    hide ExecDb, Name, Ascii;
    assert [key][..0] == [];
    assert CountPresent(store, []) == 0;
  }

  lemma TypeTells(store: Store, key: Bytes)
    requires AllText(store)
    ensures Run(store, "type", [key]).answer == One(Status(Ascii(if key in store then "string" else "none")))
  {
    Dispatched(store, Type, [key]);
    hide Run, Name, Ascii, CountPresent, KeySet, MatchingKeys;
  }

  lemma GetTells(store: Store, key: Bytes)
    requires AllText(store)
    ensures key !in store ==> Run(store, "get", [key]).answer == Run(store, "strlen", [key]).answer == One(NullBulk)
    ensures key in store ==> exists v :: Run(store, "get", [key]).answer == One(Bulk(v))
                                         && Run(store, "strlen", [key]).answer == One(Int(|v|))
  {
    Dispatched(store, Get, [key]);
    Dispatched(store, Strlen, [key]);
    hide Run, Name, Ascii, CountPresent, KeySet, MatchingKeys;
    if key in store {
      var v := store[key].value;
      assert Run(store, "get", [key]).answer == One(Bulk(v)) && Run(store, "strlen", [key]).answer == One(Int(|v|));
    }
  }

  /** FLUSHDB leaves nothing, whatever its arguments, and answers OK. */
  lemma FlushEmpties(store: Store, args: CmdLine)
    ensures Run(store, "flushdb", args).store == map[]
    ensures Run(store, "flushdb", args).answer == One(Ok)
  {
    Dispatched(store, FlushDb, args);
    hide Run, Name, Ascii, CountPresent, KeySet, MatchingKeys;
  }

  /** KEYS lists a live key, once, exactly when the pattern's characters describe it. */
  lemma KeysListsMatches(store: Store, pattern: Bytes, r: Reply, key: Bytes)
    requires Answers(Run(store, "keys", [pattern]).answer, r)
    ensures r.MultiBulk? && NoDuplicates(r.args)
    ensures key in r.args <==> key in store && Glob(LowBytes(Runes(pattern)), key)
  {
    Dispatched(store, Keys, [pattern]);
    hide Run, Name, Ascii, Glob, Match, Compile, LowBytes, Runes;
    CompiledMeansGlob(pattern, key);
  }

  /** `KEYS *` lists every key. */
  lemma KeysStarListsAll(store: Store)
    ensures Run(store, "keys", [[STAR]]).answer == Listing(store.Keys)
  {
    Dispatched(store, Keys, [[STAR]]);
    hide Run, Name, Ascii, Match, Compile;
    forall k | k in store ensures Match(Compile([STAR]), k) {
      StarMatchesAll(k);
    }
  }
}
