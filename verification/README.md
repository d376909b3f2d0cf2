# go_redis, modelled and proved in Dafny

A model of the go_redis server and its cluster client, byte for byte where bytes matter, with proofs of
what the pieces promise each other.

* **Wire.** `Strconv`, `Replies`, `Parser`, `ParserLaws`, `ReplyLaws`, `LineLaws`: the stream parser and the printers. The
  parser's meaning is `Parser.Feed`, how far it gets on the bytes received so far; a panic of its goroutine,
  which leaves the channel open for ever, is the outcome `Dead`. The loop of `parse0` is proved to compute it.
* **Server.** `Commands`, `CommandLaws`, `SyncDict`, `Database`, `Server`, `StandaloneDatabase`, `Durability`: the commands, the
  databases, the append-only log, and recovery. Classes follow the source; each method is proved against the
  functions of `Commands` and `Server`, and the recovery results are proved about those.
* **Patterns.** `Wildcard`, `PatternCompiler`, `Globs`: glob items, their declarative meaning (a cutting of the string
  into one piece per item), the table-filling matcher, the one-pass compiler, and what a pattern means by its
  characters alone.
* **Cluster.** `ConsistentHash`, `Cluster`: the hash ring over an arbitrary hash function, and commands through any
  member, forwarded as real bytes through the peer's parser and back.
* **Client.** `PipelineClient`: the pipelined client's goroutines as interleaved steps.

`dafny verify dfyconfig.toml` checks the project.

## Where the code does not do what it is for

These are stated as exact conditions, not assumed away.

* A printed command reads back as itself exactly when it has 1 to 2^32-1 arguments, none empty, none starting with
  `$`, none longer than 2^63-3 (`RoundTripExactly`), and a stream of printed commands exactly when all of them are
  of that kind (`StreamRoundTripExactly`). An empty argument prints as `$-1` and a blank line, and the blank line
  kills the parser (`EmptyArgumentKills`); sent as `$-1` alone it is read as an empty argument and can be stored
  (`NullArgumentIsEmpty`).
* So the log is recoverable exactly when no logged record has an empty argument; otherwise loading hangs
  (`DurabilityExactly`).
* A restarted log handler assumes database 0 whatever the loaded log selected. Of the records of a run after a
  restart, those for database 0 before any other are loaded into the database the old log ended in, and all others
  into their own (`RestartExactly`). So every record comes back where it belongs exactly when the old log ends in
  database 0, or nothing is logged, or the first record is for another database (`LandsAtHomeExactly`,
  `DurableAcrossRestart`); two requests before a restart and one after it are enough to go wrong
  (`EndsInAnotherDatabase`, `RestartMisplaces`).
* The reply to a GET of an empty value is `$-1` without a line end, and the empty array is sent as `$*0`; neither is
  read back as a reply (`TravelsExactly`, `EmptyBulkReplyHangs`). Pipelined replies are received as sent exactly
  when every one of them travels: no empty bulk, empty array, text with a line feed, integer beyond 64 bits or
  array that is not read back (`RepliesTravelExactly`).
* Members of a cluster agree on every key's owner exactly when no two node names collide (`AgreementExactly`); with
  a collision, what is set through one member is not found through another (`CollisionSplitsKey`). Without one, a
  member serves a single-key command as the single server would exactly when it owns the key or neither an argument
  nor the value to be fetched is empty (`RoutedCommand`, `ClusterRefinement`).
* On a cluster RENAME and RENAMENX are sent to the new key instead of its owner, so they do nothing unless that key
  is spelt like a member's address (`RenameIsRefused`, `RenameGoesAstray`). DEL and FLUSHDB are broadcast by every
  member that receives them, so with two members or more they never come back (`BroadcastNeverReturns`).
* A pattern is compiled from the low byte of every character: one without special characters matches itself exactly
  when it is ASCII, or 0xFD (`OrdinaryExactly`). Stars, question marks and escapes inside a set do not go into it but
  match in front of it, and a set that is never closed has only those (`CompiledMeansGlob`).
* A concatenated pattern is read as its two parts exactly when no UTF-8 character crosses from the first into the
  second (`RunesConcatExactly`).
* Quoting every byte of a string makes a pattern for that string alone exactly when its bytes are ASCII, or happen
  to be 0xFD (`QuotingExactly`).
* The client never hands one request's reply to another as long as no connection fails, the requests are wire-safe
  and the server's replies travel (`ReplyMatching`). Neither of the conditions on connections and replies can go:
  after a reconnect it can (`ReconnectMismatch`), and so it can on a sound connection after an empty bulk reply
  (`EmptyBulkMismatch`).
* The comment on `AddAof` speaks of a write-ahead log, but the executors change memory first and log afterwards.
  The model follows the code; for commands executed one at a time nothing depends on it.

## Model

| member | source | states |
|---|---|---|
| Strconv.ParseIntOfItoa | resp/reply/reply.go:64-66 | Printing an integer in decimal and parsing it as int64 gives it back for the 64-bit integers and fails for all others. |
| Strconv.ParseUintExactly | resp/parser/parser.go:166-169 | The strings read as a number are exactly its decimal spellings, with any zeros in front, up to the bound. |
| Strconv.ParseIntExactly | resp/parser/parser.go:187-190 | The same for 64-bit integers, with a sign: a minus for negative ones, a plus or nothing for positive ones, any for zero. |
| Replies.WriteMultiBulk | resp/reply/reply.go:32-44 | The buffer loop writes the array header and then, per argument, its length and body, or a null bulk and a blank line when it is empty. |
| Parser.NextLine | resp/parser/parser.go:131-159 | A message read ends in CR LF, and every read that does not stop the parser consumes input. |
| Parser.BufReader.ReadBytes | resp/parser/parser.go:140-143 | Reads through the first delimiter, or everything with an error when there is none. |
| Parser.BufReader.ReadFull | resp/parser/parser.go:148-152 | Reads exactly n bytes, or fails and says whether it got a part. |
| Parser.ReadState.ReadLine | resp/parser/parser.go:131-159 | One call reads what the specification reads, resets `bulkLen` after a counted body, and panics exactly where the slice index or the length would. |
| Parser.ReadState.ParseMultiBulkHeader | resp/parser/parser.go:162-182 | Fails exactly when the count is not a decimal uint32; otherwise announces that many arguments, or none. |
| Parser.ReadState.ParseBulkHeader | resp/parser/parser.go:185-202 | Succeeds exactly for -1 and positive int64 lengths, and then expects one argument of that length. |
| Parser.ReadState.ReadBody | resp/parser/parser.go:226-242 | A body is one more argument, or a length line when it starts with a dollar sign; a bare line end panics. |
| Parser.OnMessage | resp/parser/parser.go:69-118 | From a good state every message leads to a good state again, or to a panic. |
| Parser.Parse0 | resp/parser/parser.go:44-119 | On any stream the goroutine sends exactly the payloads of the incremental specification, then one I/O error and a closed channel, or nothing more and an open channel when it panics. |
| Parser.Feed | resp/parser/parser.go:54-118 | On every byte input the state it waits in is good: all default, or inside an array with fewer arguments than announced and a non-negative length. |
| ParserLaws.FeedInPieces | resp/parser/parser.go:44-119 | Parsing a then b gives the same payloads, state and leftover as parsing a followed by b: the splitting of the stream never matters. |
| ParserLaws.PrefixParsesToPrefix | resp/parser/parser.go:44-119 | Cutting any stream never changes a payload sent before the cut. |
| ParserLaws.EmittedCommandsAreSound | resp/parser/parser.go:108-116 | Every command emitted on any bytes has 1 to 2^32-1 arguments and none starts with a dollar sign. |
| ParserLaws.TurnIsSound | resp/parser/parser.go:31-34 | A message sends at most one payload, and a command it sends has exactly as many arguments as were announced. |
| ParserLaws.SafeArgsAreRead | resp/parser/parser.go:226-242 | Printed safe arguments are added one by one, and the last announced one sends the command. |
| ParserLaws.CommandRoundTrip | resp/reply/reply.go:32-44 | A printed wire-safe command in front of any bytes parses to that command and then whatever the bytes parse to from rest. |
| ParserLaws.StreamRoundTrip | resp/parser/parser.go:44-119 | The same for every list of commands printed back to back, bodies with CR and LF included. |
| ParserLaws.StreamRoundTripExactly | resp/parser/parser.go:44-119 | Commands printed back to back are parsed to themselves and nothing else if and only if every one of them is wire-safe. |
| ParserLaws.SilenceIsWaiting | resp/parser/parser.go:44-119 | The parser returns to rest only by sending a payload. |
| ParserLaws.TruncatedCommand | resp/parser/parser.go:131-159 | A strict prefix of a printed wire-safe command sends nothing, does not panic, and ends in exactly one I/O error. |
| ParserLaws.PrintAfterParse | resp/parser/parser.go:226-242 | A command emitted from arbitrary bytes, without an empty argument, prints to a form that parses back to it. |
| ParserLaws.BlankLineKills | resp/parser/parser.go:205-229 | A bare line end, in front of a message or inside an array, ends the goroutine without a payload. |
| ParserLaws.EmptyArgumentKills | resp/reply/reply.go:37-38 | A printed command with an empty argument ends the parser's goroutine, whatever follows. |
| ParserLaws.NullArgumentIsEmpty | resp/parser/parser.go:231-238 | A last argument sent as `$-1` without a blank line is read as an empty argument, whatever follows. |
| ParserLaws.RoundTripExactly | resp/reply/reply.go:32-44 | Print and parse is the identity in front of every stream if and only if the command is wire-safe. |
| ReplyLaws.ReplyTravels | resp/client/client.go:192-202 | A reply that can travel is received as one payload, bulk strings as one-element arrays, whatever follows it. |
| ReplyLaws.FixedReplies | resp/reply/consts.go:7-55 | The texts of the constant replies, of the empty bulk and of the wrong number of arguments, byte for byte. |
| ReplyLaws.TravelsExactly | resp/reply/reply.go:18-23 | The replies received as one payload and nothing else are exactly those: not the empty bulk, the empty array, or texts with a line feed. |
| ReplyLaws.EmptyBulkReplyHangs | resp/reply/reply.go:18-21 | An empty bulk reply leaves the client waiting in the middle of a line. |
| ReplyLaws.DoesNotTravel | resp/reply/reply.go:18-23 | Whatever follows a reply that does not travel, that reply is not the first thing the client receives. |
| ReplyLaws.RepliesTravelExactly | resp/client/client.go:192-202 | Pipelined replies are received one for one, in order and nothing else, if and only if every one of them travels. |
| LineLaws.OtherLine | resp/parser/parser.go:205-221 | A line that begins like no reply at all is sent on as a payload without data, and the parser is at rest behind it. |
| LineLaws.LoneLineFeedKills | resp/parser/parser.go:144-144 | A line feed with nothing in front of it is an index panic, between messages and inside an array. |
| LineLaws.LineWithoutReturn | resp/parser/parser.go:140-146 | A line feed without a carriage return is an error, and the parser starts afresh behind it. |
| LineLaws.BodyWithoutEnd | resp/parser/parser.go:148-155 | So is a body of the announced length without a line end. |
| LineLaws.IntegerLineExactly | resp/parser/parser.go:213-218 | An integer line is received as an integer exactly for the decimal spellings of the 64-bit integers. |
| LineLaws.ArrayHeaderExactly | resp/parser/parser.go:162-182 | An array header announces its count exactly for the decimal spellings up to 2^32-1, sends the empty array for 0, and is an error otherwise. |
| LineLaws.BulkHeaderExactly | resp/parser/parser.go:185-202 | A bulk header announces a positive int64 length, sends a null bulk for -1, and is an error otherwise. |
| LineLaws.LengthLineExactly | resp/parser/parser.go:226-242 | Inside an array a positive length announces an argument, any other is an empty argument, and no number is an error. |
| LineLaws.DollarBodyIsLengthLine | resp/parser/parser.go:228-237 | A body that starts with a dollar sign is treated as if it were such a length line. |
| LineLaws.LineIsArgument | resp/parser/parser.go:238-240 | Any other line inside an array is an argument as it stands, and the last one sends the command. |
| LineLaws.EndsCleanly | resp/parser/parser.go:56-62 | A stream that ends between commands sends them and then EOF. |
| LineLaws.EndsInBody | resp/parser/parser.go:148-152 | One that ends in a body ends in an unexpected EOF, right in front of it in EOF. |
| LineLaws.BlankLineHangs | resp/parser/parser.go:45-49 | A stream with a blank line between commands sends the commands before it, and the channel is never closed. |
| Wildcard.MinMax | lib/wildcard/wildcard.go:28-39 | The loop over a range's members finds the least and the greatest, or 255 and 0 when there are none. |
| Wildcard.Contains | lib/wildcard/wildcard.go:20-45 | A set, range or negated item contains exactly the bytes its meaning accepts. |
| Wildcard.IsMatch | lib/wildcard/wildcard.go:106-133 | The filled table decides the matching recurrence for all items and strings. |
| Wildcard.MatchIsMatches | lib/wildcard/wildcard.go:106-133 | The recurrence holds exactly when the string can be cut into one piece per item, any piece for a star, one accepted byte otherwise. |
| Wildcard.SplitLaw | lib/wildcard/wildcard.go:106-133 | Two patterns in a row match a string exactly when some cut of it matches both. |
| PatternCompiler.CompilePattern | lib/wildcard/wildcard.go:53-103 | The loop over the characters, with its escape and set variables, computes the step-by-step specification over Go's decoding of the string. |
| PatternCompiler.RangeReadsUtf8 | lib/wildcard/wildcard.go:58-59 | Ranging over a string reads every UTF-8 encoded character as its code point, whatever follows it. |
| PatternCompiler.StarMatchesAll | lib/wildcard/wildcard.go:63-64 | A star matches every string. |
| PatternCompiler.AnyMatchesOne | lib/wildcard/wildcard.go:65-66 | A question mark matches exactly the strings of one byte. |
| PatternCompiler.OrdinaryExactly | lib/wildcard/wildcard.go:92-97 | A pattern whose characters' low bytes are none of the four special ones matches itself and nothing else if and only if its bytes are ASCII or 0xFD. |
| PatternCompiler.PlainTextMatchesItself | lib/wildcard/wildcard.go:89-97 | An ASCII string without `*`, `?`, backslash and `[` matches itself and nothing else; a `]` is such a character. |
| Globs.CompiledMeansGlob | lib/wildcard/wildcard.go:53-133 | For every pattern and string, compiling and matching decide exactly what the pattern's characters describe by a recursion on them: stars, question marks, escapes, sets with what stands inside them, sets never closed, a backslash at the end. |
| Globs.AsciiMeansGlob | lib/wildcard/wildcard.go:53-133 | For an ASCII pattern these characters are its bytes. |
| Globs.BracketMeaning | lib/wildcard/wildcard.go:69-88 | A bracket of ASCII characters other than the star, the question mark, the backslash and `]`, another `[` included, matches one byte: outside the others when a caret is anywhere in it, else between the least and greatest when a dash is, else one of them. |
| PatternCompiler.RunesConcatExactly | lib/wildcard/wildcard.go:58-59 | For all byte strings a and b, ranging over a followed by b reads what ranging over each does if and only if no character begins in a and ends in b. |
| PatternCompiler.NoCrossingInto | lib/wildcard/wildcard.go:58-59 | No character crosses into a string that begins with anything but a continuation byte. |
| PatternCompiler.NoCrossingOutOf | lib/wildcard/wildcard.go:58-59 | Encoded code points are read back by ranging over them, and no character crosses out of them, whatever bytes follow. |
| PatternCompiler.CompilesInParts | lib/wildcard/wildcard.go:53-103 | For byte strings a and b, compiling a followed by b gives the items of a and then those of b, when a ends outside an escape and outside a set and no character crosses from a into b. |
| PatternCompiler.ConcatenatedPattern | lib/wildcard/wildcard.go:53-133 | Under the same condition the pattern a followed by b matches exactly the strings with a cut whose halves match a and b. |
| PatternCompiler.QuoteCompiles | lib/wildcard/wildcard.go:60-68 | A backslash before every byte compiles to one plain character per byte, 0xFD for bytes above 127. |
| PatternCompiler.QuotingExactly | lib/wildcard/wildcard.go:53-133 | A quoted string matches itself and nothing else if and only if its bytes are ASCII or 0xFD. |
| SyncDict.Dict.Put | datastruct/dict/sync_dict.go:23-30 | Stores the entry and says whether the key is new. |
| SyncDict.Dict.PutIfAbsent | datastruct/dict/sync_dict.go:32-39 | Stores the entry only when the key is absent, and says so. |
| SyncDict.Dict.PutIfExists | datastruct/dict/sync_dict.go:41-48 | Stores the entry only when the key is present, and says so. |
| SyncDict.Dict.Remove | datastruct/dict/sync_dict.go:50-57 | Removes the key and says whether it was there. |
| SyncDict.Dict.Len | datastruct/dict/sync_dict.go:14-21 | Counts every key once. |
| SyncDict.Dict.Keys | datastruct/dict/sync_dict.go:59-75 | Ranging gives every key exactly once and nothing else. |
| SyncDict.Dict.Clear | datastruct/dict/sync_dict.go:102-104 | Leaves no key. |
| Commands.LogIsSufficient | database/db.go:30-43 | A command without a record leaves the store as it was; a record re-executed on the store the command found has the very same effect. |
| Commands.StaysText | database/string.go:11-83 | On byte-string values every command leaves byte-string values and never takes a wrong-type branch. |
| CommandLaws.Dispatched | database/db.go:30-53 | A command sent by its registered name, as a text, with a valid number of arguments runs its executor; with any other it is an error that changes nothing. |
| ByteStrings.SpeltExactly | database/db.go:32-32 | Lower-casing a name gives a word exactly when the name is that word with any of its letters capital. |
| CommandLaws.SpellingIsFree | database/db.go:32-33 | A name spelt with any of its letters capital does what the name in small letters does. |
| CommandLaws.Arities | database/commend.go:15-18 | Which numbers of arguments each of the thirteen commands refuses: PING takes none, GET one, SET two, DEL at least one, FLUSHDB any, and so on. |
| CommandLaws.UnknownCommand | database/db.go:33-36 | Every name that is not a spelling of one of the thirteen answers an error, changes nothing and logs nothing. |
| CommandLaws.ReadsLastWrite | database/string.go:11-68 | GET answers the last value written by SET, GETSET or a SETNX that found the key free, SET answers OK, GETSET what GET did before, and no write is seen under another key. |
| CommandLaws.RenameMoves | database/keys.go:65-94 | RENAME of a live key moves the value, leaves nothing under the old name, equal names included, and answers OK; RENAMENX does the same only to a free name. |
| CommandLaws.RenameMissing | database/keys.go:69-89 | RENAME and RENAMENX of an absent key change and log nothing, and answer an error, RENAMENX 0 when the new name is taken. |
| CommandLaws.WritesAreLogged | database/keys.go:20-22 | Which commands are logged, with their name and arguments: SET, GETSET, SETNX and FLUSHDB always, DEL, RENAME and RENAMENX exactly when they did something. |
| CommandLaws.ReadersChangeNothing | database/keys.go:27-62 | GET, STRLEN, TYPE, KEYS, EXISTS and PING change and log nothing, and PING answers PONG. |
| CommandLaws.CountIsIntersection | database/keys.go:27-40 | On distinct keys EXISTS counts the live ones among them. |
| CommandLaws.ExistsAdds | database/keys.go:33-38 | For two lists of keys in a row EXISTS answers the sum, so repeated keys count again. |
| CommandLaws.DelAgreesWithExists | database/keys.go:14-40 | DEL answers what EXISTS would have on distinct keys, EXISTS is 0 for them afterwards, and other keys stay. |
| CommandLaws.DelIgnoresRepetition | database/db.go:83-91 | DEL of the same keys in another order or with repetitions does and answers the same. |
| CommandLaws.ReadersAgree | database/keys.go:27-62 | EXISTS, TYPE, GET and STRLEN agree on which keys are there, TYPE calls them strings, and STRLEN is the length of what GET answers; both are null for an absent key. |
| CommandLaws.FlushEmpties | database/keys.go:43-47 | FLUSHDB leaves no key and answers OK, whatever its arguments. |
| CommandLaws.KeysStarListsAll | database/keys.go:97-107 | KEYS with a star lists every key. |
| CommandLaws.KeysListsMatches | database/keys.go:97-107 | KEYS lists a live key, once, exactly when the pattern's characters describe it. |
| Database.AofHandler.AddAof | aof/aof.go:46-76 | Appends the printed record, behind a printed SELECT exactly when the database differs from the last record's. |
| Database.ToCmdLine3 | lib/utils/utils.go:23-30 | The filled slice is the name followed by the arguments. |
| Database.DB.Removes | database/db.go:83-91 | Removes the given keys and counts those that were there, repeated keys once. |
| Database.DB.ExecDel | database/keys.go:14-24 | Removes the keys, answers how many were there, logs when there was one. |
| Database.DB.ExecExists | database/keys.go:27-40 | Answers how many of the arguments are keys, repetitions counted, and changes nothing. |
| Database.DB.ExecFlushDb | database/keys.go:43-47 | Leaves the database empty and logs. |
| Database.DB.ExecType | database/keys.go:50-62 | Answers none, string, or an error for a kind of value that cannot occur. |
| Database.DB.ExecRename | database/keys.go:65-76 | Moves the entry, to nowhere when both names are equal, and logs; an absent key is an error without a record. |
| Database.DB.ExecRenamenx | database/keys.go:79-94 | Moves the entry only to a free name, and logs only then. |
| Database.DB.ExecKeys | database/keys.go:97-107 | Answers the matching live keys, each exactly once, in some order. |
| Database.DB.ExecGet | database/string.go:11-23 | Answers the stored bytes, or a null bulk. |
| Database.DB.ExecSet | database/string.go:26-35 | Stores the value and logs. |
| Database.DB.ExecSetnx | database/string.go:38-47 | Stores the value only under an absent key, answers whether it did, and logs either way. |
| Database.DB.ExecGetset | database/string.go:50-68 | Stores the value, logs, and answers the value that was there before. |
| Database.DB.ExecStrlen | database/string.go:71-83 | Answers the length of the stored bytes, or a null bulk. |
| Database.DB.Exec | database/db.go:30-53 | Looks the lower-cased name up, checks the arity, and does to database, reply and log what the command's effect says. |
| StandaloneDatabase.Standalone.Exec | database/standalone_database.go:51-68 | Changes the selected database, the connection's selection and the shared log exactly as the server's step function says, and no other database. |
| StandaloneDatabase.Standalone.ExecSelect | database/standalone_database.go:78-88 | Selects a decimal index in range; anything else is an error that keeps the selection. |
| Server.SelectExactly | database/standalone_database.go:78-88 | SELECT selects a database exactly for the decimal spellings of its index; with anything else it answers an error and keeps the selection, and it never changes a database or the log. |
| Server.OthersKeepSelection | database/standalone_database.go:64-67 | Every other command runs on the client's database alone, is logged for that one, and keeps the selection. |
| Server.SelectionsArePrivate | database/standalone_database.go:51-68 | A connection starts in database 0, its requests run on the database it has selected, and only they change that. |
| StandaloneDatabase.Standalone.LoadAof | aof/aof.go:89-124 | Fresh databases come to hold what replaying the commands in the bytes gives; it does not return when the parser dies. |
| StandaloneDatabase.NewStandaloneDatabase | database/standalone_database.go:18-44 | The server starts with the loaded databases, one shared log handler, and that handler at database 0. |
| Server.ReplayConcat | aof/aof.go:98-123 | Replaying two command lists in a row is replaying their concatenation. |
| Durability.RecordsRedo | aof/aof.go:54-66 | The records of a request, SELECT included, redo on the databases what the request did, and select its database. |
| Durability.LogGrows | aof/aof.go:67-68 | Whole safe records appended to a clean log are loaded after the commands already in it, and the log stays clean. |
| Durability.OtherLinesAreSkipped | aof/aof.go:98-117 | Loading a log gives the same with or without a line in it that is no part of a command. |
| Durability.DurabilityExactly | aof/aof.go:46-124 | After any run by any clients, loading the log gives the live databases and the last record's database if no logged record has an empty argument, and hangs otherwise. |
| Durability.FreshIsRecoverable | database/standalone_database.go:18-28 | A new server with an empty log is a start for that result. |
| Durability.RestartExactly | aof/aof.go:31-76 | After any run that follows a restart, by any clients: with an empty argument in a record loading hangs; otherwise the live databases are the records redone each in its own database, and the loaded ones the same records redone where they land. |
| Durability.LandsAtHomeExactly | aof/aof.go:54-63 | All those records land in their own databases if and only if the old log ends in database 0, or there is none, or the first is not for database 0. |
| Durability.DurableAcrossRestart | aof/aof.go:31-124 | Under that condition, and without empty arguments, loading after such a run gives the live databases, and the log is recoverable again once it has a new record. |
| Durability.FirstRecordAfterRestart | aof/aof.go:31-43 | After a restart the first record is loaded into its own database, or, when that is database 0, into the one the old log ended in; the log is recoverable then if and only if these are the same. |
| Durability.RestartMisplaces | aof/aof.go:31-63 | From any log that ends in another database than 0, a SET of a new key in database 0 after a restart is live there, but loaded into that other one. |
| Durability.EndsInAnotherDatabase | aof/aof.go:54-63 | A new server that is sent SELECT 1 and a SET has a recoverable log that ends in database 1. |
| Durability.CrashConsistency | aof/aof.go:54-69 | A log cut at any byte loads the databases exactly as they were after the last request whose records are whole in it. |
| Durability.PartOfRecord | aof/aof.go:54-69 | Part of a record, or a SELECT and part of its record, changes no database. |
| Durability.SelectElisionExactly | aof/aof.go:54-63 | The bytes of any sequence of AddAof calls read back as exactly those (database, command) pairs; from another starting database, exactly when the first call prints a SELECT. |
| Durability.NoWrongTypeEver | database/string.go:11-83 | In every run values stay byte strings, no request is answered WRONGTYPE, and a request leaves all databases but its client's own alone. |
| Durability.ClientCommandsAreParsed | resp/handler/handler.go:88-91 | A command taken from a connection has the shape the durability results ask of requests. |
| ConsistentHash.Search | lib/consistenthash/consistenthash.go:52-52 | Binary search finds the first hash not below the key's. |
| ConsistentHash.NodeMap.AddNodes | lib/consistenthash/consistenthash.go:34-44 | The hash list stays sorted, grows by the hashes of the non-empty names, and names exactly the points of the map. |
| ConsistentHash.NodeMap.PickNode | lib/consistenthash/consistenthash.go:47-58 | Returns the node at the least point not below the key's hash, or at the least point of all, or the empty name on an empty ring. |
| ConsistentHash.SuccessorIsFirstClockwise | lib/consistenthash/consistenthash.go:52-56 | The point picked for a hash is the first one clockwise around the ring of 32-bit hashes. |
| ConsistentHash.PickIsANode | lib/consistenthash/consistenthash.go:34-58 | A key is picked by one of the nodes, never by one without a name, and by nobody when no node has a name. |
| ConsistentHash.MinimalMovement | lib/consistenthash/consistenthash.go:34-58 | After adding nodes to any ring, collisions or not, a key is picked by the same node as before or by an added one. |
| ConsistentHash.OrderIsIrrelevant | lib/consistenthash/consistenthash.go:34-44 | Without collisions the ring is the same for every order of the same nodes. |
| ConsistentHash.AgreementExactly | cluster/cluster_database.go:31-36 | All members, each listing its peers and then itself, pick the same owner for every key if and only if no two names collide. |
| Cluster.ClusterDatabase.constructor | cluster/cluster_database.go:24-43 | The node list is the peers followed by self, the ring is built from it, there is a connection pool for every peer and no other, and the member has its own server. |
| Cluster.MakeClusterDatabase | cluster/cluster_database.go:24-43 | The member starts with a standalone server that has loaded its own log, or does not start when that loading does not return. |
| Cluster.MembersAgree | cluster/router.go:25-29 | When the hashes of distinct node names differ, every member, listing the same nodes in whatever order, routes a key to the same owner. |
| Cluster.CollisionSplitsKey | cluster/router.go:25-29 | When two names collide, a SET through one of the two members is not seen by a GET through the other, for the key spelt like the first. |
| Cluster.KeyIsAllThatMatters | cluster/router.go:9-15 | A routed command's answer depends on its key's entry alone, and it changes no other entry. |
| Cluster.RoutedExactly | cluster/router.go:7-23 | The router sends a name to the key's owner exactly when it spells GET, SET, SETNX, GETSET, TYPE or EXISTS. |
| Cluster.UnknownToCluster | cluster/cluster_database.go:57-62 | Every name that is not a spelling of the router's twelve, STRLEN and KEYS among them, answers an error and changes nothing anywhere. |
| Cluster.MissingKey | cluster/cluster_database.go:49-55 | A single-key command without a key is a recovered panic: an unknown error, and no member changes. |
| Cluster.RenameIsRefused | cluster/rename.go:12-24 | On a cluster without colliding names RENAME and RENAMENX with a wrong number of arguments, with keys of different owners, or with a new key that is no member's name change nothing and answer the respective error. |
| Cluster.RenameGoesAstray | cluster/rename.go:24-24 | With a new key spelt like the member's own name and both keys of one owner, the member renames in its own database, owner or not. |
| Cluster.BroadcastNeverReturns | cluster/com.go:56-62 | DEL and FLUSHDB on a cluster of two members or more come back for no number of forwards. |
| Cluster.SendKills | cluster/com.go:52-53 | A parsed command with an empty argument, sent to a peer, gets no answer. |
| Cluster.SendHangs | cluster/com.go:52-53 | Nor does one that the peer answers with an empty value. |
| Cluster.RoutedCommand | cluster/com.go:40-54 | On a cluster without colliding names, with values in it that a parser produced: a single-key command as the parser produces them, sent to any member, is forwarded at most once and acts and answers like the single server if that member owns the key or neither an argument nor the value answered is empty; in every other case the exchange with the owner breaks down. |
| Cluster.ClusterRefinement | cluster/com.go:40-54 | Under the same conditions on names, values and commands, a run of single-key commands, SELECT and PING, by any clients through any members, is served if and only if every command in its turn can be as above; and then each key stays on its owner only, each command is forwarded at most once, and the run acts like one standalone server's, with replies equal byte for byte up to the array around a fetched value. |
| Cluster.SingleRunIsAfter | database/standalone_database.go:51-68 | The single server it is compared with is the one of the durability results: same databases, same selections, for every run. |
| Cluster.EmptyCluster | cluster/cluster_database.go:24-43 | Members that start empty represent an empty server, collisions or not. |
| Cluster.RefinementFromEmpty | cluster/com.go:40-54 | The refinement for every run from members that start empty, where the stored values need no condition. |
| PipelineClient.StepKeepsAccounts | resp/client/client.go:112-202 | Every step of every goroutine keeps each request in exactly one place. |
| PipelineClient.Accounting | resp/client/client.go:119-190 | In every run, with failed writes, retries and reconnects, a non-empty request is in exactly one of pending, the writer's hands, waiting and finished, and is completed at most once. |
| PipelineClient.Outcomes | resp/client/client.go:119-190 | In every run, with any failures: a Send returns a reply only for a written request and only what a reader passed on to that request; it returns that the request failed only after the writer gave up, and a timeout only after one; and a request that was given up has no reply and returns nothing else. |
| PipelineClient.AttemptsAreThree | resp/client/client.go:159-166 | In every run there are at most three attempts to reconnect per request, and exactly three for one that failed. |
| PipelineClient.QueuesAreBounded | resp/client/client.go:36-39 | In every run neither queue holds more than 256 requests. |
| PipelineClient.EmptyRequestsTimeOut | resp/client/client.go:152-155 | In every run a request without arguments is answered by nothing but a timeout. |
| PipelineClient.LateReply | resp/client/client.go:128-136 | For all wire-safe commands and travelling replies there is a run in which the first Send times out, its reply arrives late, and the second Send still returns its own. |
| PipelineClient.FailedSend | resp/client/client.go:152-173 | For every command there is a run, in which the write and all attempts fail, whose Send returns that the request failed. |
| PipelineClient.SmoothRunIsInStep | resp/client/client.go:152-202 | Without connection errors, with wire-safe requests and replies that travel, the bytes sent are the written requests in order and the k-th reply has gone to the k-th of them. |
| PipelineClient.ReplyMatching | resp/client/client.go:119-202 | Without connection errors, with wire-safe requests and replies that travel, a Send that returns a reply returns the server's answer to that very request, timeouts and heartbeats notwithstanding. |
| PipelineClient.ReconnectMismatch | resp/client/client.go:83-104 | After one failed write there is, for all commands and replies, a run in which a Send returns the reply to another request. |
| PipelineClient.EmptyBulkMismatch | resp/reply/reply.go:18-21 | With no connection failing, for all wire-safe commands and any travelling reply: when the server answers three requests with an empty bulk, OK and that reply, there is a run in which the Send of the second, answered OK, returns the reply to the third. |

## Left out

- Sockets, files, fsync, disk errors, logging, signals, configuration, the accept loop and the connection pool: I/O or libraries. The log file is an append-only byte sequence and a borrowed client is used by one request at a time.
- Concurrent executors: load-then-store pairs of the dictionary and the order of memory update and append are modelled as atomic commands, one after the other.
- Memory exhaustion: a length or count that Go cannot allocate is read as if it could, up to the overflow of int64. In the source a length above Go's greatest allocation is a recovered panic, so it ends the parser without closing the channel, where the model waits for the bytes.
- ToLower: folds ASCII only. Go also lower-cases the letters of other alphabets and puts U+FFFD for invalid UTF-8, so for names with bytes above 127 the text of the unknown-command error differs; and a name spelt with the Kelvin sign or the dotted capital I, which Go lower-cases to ASCII letters, is an unknown command here.
- The texts of protocol errors, beyond the message they quote, and of the errors the client makes of them.
- Cluster EXISTS of several keys: only the first key is routed, so the refinement covers it for one key only.
- Cluster DEL and FLUSHDB on a cluster of one member: the gathering of several replies is modelled as the one there is.
- Cluster.ObjectPool: a pool is only the name of its peer; borrowing, validation and the limits of the library are left out.
- Cluster.RoutedCommand: relaying is modelled on values, not in classes, because the members are separate processes; what one connection's bytes do to the other side is in the functions.
- PipelineClient: the goroutines are steps over one value, not classes; channels are queues of the source's capacity, and closing the client is not modelled.
- Database.AofHandler.AddAof: write and sync errors, and a log switched off in the configuration after the handler was installed.
- Appending after a torn log tail: the code does not repair the tail, and the results start from a log that ends between two records.
- The dictionary's random-key functions, `ConvertRange`, `RemoveDuplicates`, the echo server and the constant replies: unused or without content of their own.
- The standard library's own code: sorting, CRC32 and string conversion are modelled by what they compute; the hash is any function.
