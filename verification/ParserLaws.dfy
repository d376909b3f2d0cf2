/** What the parser guarantees: it does not depend on how the bytes arrive, it reads back exactly
    the commands that are safe to print, and it never acts on half a command. */
module ParserLaws {
  import opened ByteStrings
  import opened Strconv
  import opened Replies
  import opened Parser

  const MAX_ARG: int := INT64_MAX - 2

  predicate SafeArg(a: Bytes) {
    1 <= |a| <= MAX_ARG && a[0] != DOLLAR
  }

  /** The commands whose printed form the parser reads back. */
  predicate WireSafe(cmd: CmdLine) {
    1 <= |cmd| <= UINT32_MAX && forall i | 0 <= i < |cmd| :: SafeArg(cmd[i])
  }

  function Sent(cmds: seq<CmdLine>): (out: seq<Payload>)
    ensures |out| == |cmds|
  {
    seq(|cmds|, i requires 0 <= i < |cmds| => Data(MultiBulk(cmds[i])))
  }

  /** `More(p, b)`: the parser, having got as far as `p`, receives the bytes `b` as well. */
  function More(p: Progress, b: Bytes): Progress
    requires p.Waiting? ==> Good(p.st)
  {
    match p
    case Dead(_) => p
    case Waiting(out, st, left) => Then(out, Feed(st, left + b))
  }

  lemma NextLineExtends(bulkLen: int, a: Bytes, b: Bytes)
    requires 0 <= bulkLen <= INT64_MAX
    ensures match NextLine(bulkLen, a)
            case NeedMore => true
            case Crash => NextLine(bulkLen, a + b) == Crash
            case BadEnd(e, rest) => NextLine(bulkLen, a + b) == BadEnd(e, rest + b)
            case Line(msg, rest) => NextLine(bulkLen, a + b) == Line(msg, rest + b)
  {
    if bulkLen == 0 {
      if ReadTo(a, LF).Some? {
        ReadToExtends(a, LF, b);
      }
    } else {
      var n := WrapAdd(bulkLen, 2);
      if 0 <= n <= |a| {
        assert (a + b)[..n] == a[..n];
        assert (a + b)[n..] == a[n..] + b;
      }
    }
  }

  /** However the network splits the bytes, the payloads and the state are the same. */
  lemma {:induction false} FeedInPieces(st: State, a: Bytes, b: Bytes)
    requires Good(st)
    ensures Feed(st, a + b) == More(Feed(st, a), b)
    decreases |a|
  {
    NextLineExtends(st.bulkLen, a, b);
    match NextLine(st.bulkLen, a)
    case NeedMore =>
      ThenNothing(Feed(st, a + b));
    case Crash =>
    case BadEnd(error, rest) =>
      FeedInPieces(REST, rest, b);
      MoreThen([Malformed(error)], Feed(REST, rest), b);
    case Line(msg, rest) =>
      match OnMessage(st, msg)
      case Abort =>
      case Continue(out, st') =>
        FeedInPieces(st', rest, b);
        MoreThen(out, Feed(st', rest), b);
  }

  lemma ThenNothing(p: Progress)
    ensures Then([], p) == p
  {
  }

  lemma MoreThen(out: seq<Payload>, p: Progress, b: Bytes)
    requires p.Waiting? ==> Good(p.st)
    ensures More(Then(out, p), b) == Then(out, More(p, b))
  {
    if p.Waiting? {
      ThenThen(out, p.out, Feed(p.st, p.left + b));
    }
  }

  /** Cutting a stream short never changes what was parsed before the cut. */
  lemma PrefixParsesToPrefix(a: Bytes, b: Bytes)
    ensures Feed(REST, a).out <= Feed(REST, a + b).out
  {
    FeedInPieces(REST, a, b);
  }

  predicate SoundPayload(p: Payload) {
    p.Data? && p.reply.MultiBulk? ==> 1 <= |p.reply.args| <= UINT32_MAX && NoDollar(p.reply.args)
  }

  /** On any bytes at all, a command has as many arguments as its header announced, one at least,
      and none of them starts with `$`. */
  lemma {:induction false} EmittedCommandsAreSound(st: State, input: Bytes)
    requires Good(st)
    ensures forall p | p in Feed(st, input).out :: SoundPayload(p)
    decreases |input|
  {
    match NextLine(st.bulkLen, input)
    case NeedMore =>
    case Crash =>
    case BadEnd(error, rest) => EmittedCommandsAreSound(REST, rest);
    case Line(msg, rest) =>
      TurnIsSound(st, msg);
      match OnMessage(st, msg)
      case Abort =>
      case Continue(out, st') => EmittedCommandsAreSound(st', rest);
  }

  lemma TurnIsSound(st: State, msg: Bytes)
    requires Good(st) && EndsLine(msg)
    ensures var t := OnMessage(st, msg);
      t.Continue? ==>
        && |t.out| <= 1
        && (forall p | p in t.out :: SoundPayload(p))
        && (forall p | p in t.out && p.Data? && p.reply.MultiBulk? :: |p.reply.args| == st.expected)
  {
  }

  /** A line without a line feed, then its end, is read as one message. */
  lemma ReadsLine(line: Bytes, rest: Bytes)
    requires line != [] && LF !in line
    ensures NextLine(0, line + CRLF + rest) == Line(line + CRLF, rest)
  {
    assert line + CRLF + rest == (line + [CR]) + ([LF] + rest);
    assert line + CRLF == (line + [CR]) + [LF];
    ReadToFirst(line + [CR], LF, rest);
  }

  lemma ReadsBody(body: Bytes, rest: Bytes)
    requires 1 <= |body| <= MAX_ARG
    ensures NextLine(|body|, body + CRLF + rest) == Line(body + CRLF, rest)
  {
    var input := body + CRLF + rest;
    var n := |body| + 2;
    assert input[..n] == body + CRLF;
    assert input[n..] == rest;
  }

  function Proceed(t: Turn, rest: Bytes): Progress
    requires t.Continue? ==> Good(t.st)
  {
    if t.Abort? then Dead([]) else Then(t.out, Feed(t.st, rest))
  }

  lemma LineFeed(st: State, line: Bytes, rest: Bytes)
    requires Good(st) && st.bulkLen == 0 && line != [] && LF !in line
    ensures Feed(st, line + CRLF + rest) ==
            Proceed(OnMessage(st, line + CRLF), rest)
  {
    ReadsLine(line, rest);
  }

  lemma BodyFeed(st: State, body: Bytes, rest: Bytes)
    requires Good(st) && 1 <= |body| <= MAX_ARG && st.bulkLen == |body|
    ensures Feed(st, body + CRLF + rest) == Proceed(OnMessage(st, body + CRLF), rest)
  {
    hide OnMessage;
    ReadsBody(body, rest);
  }

  /** A length this close to 2^63 overflows when the line end is added. */
  lemma LengthOverflow(st: State, input: Bytes)
    requires Good(st) && st.bulkLen > MAX_ARG
    ensures Feed(st, input) == Dead([])
  {
  }

  lemma HeaderText(prefix: byte, n: int)
    requires prefix != LF
    ensures var line := [prefix] + Itoa(n); line != [] && LF !in line && line[1..] == Itoa(n)
  {
    ItoaIsOneLine(n);
  }

  /** `$<n>` inside an array. */
  lemma LengthLine(st: State, n: int, rest: Bytes)
    requires Good(st) && st.reading && st.bulkLen == 0
    ensures Feed(st, [DOLLAR] + Itoa(n) + CRLF + rest) ==
            if !IsInt64(n) then Then([Malformed(Protocol([DOLLAR] + Itoa(n) + CRLF))], Feed(REST, rest))
            else if n > 0 then Feed(st.(bulkLen := n), rest)
            else var t := AddArg(st, []); Then(t.out, Feed(t.st, rest))
  {
    hide Feed;
    var line := [DOLLAR] + Itoa(n);
    HeaderText(DOLLAR, n);
    ParseIntOfItoa(n);
    LineFeed(st, line, rest);
    assert (line + CRLF)[..|line|] == line;
    if 0 < n <= INT64_MAX {
      ThenNothing(Feed(st.(bulkLen := n), rest));
    }
  }

  lemma SafeArgIsRead(st: State, a: Bytes, rest: Bytes)
    requires Good(st) && st.reading && st.bulkLen == 0 && SafeArg(a)
    ensures Feed(st, PrintArg(a) + rest) == Proceed(AddArg(st, a), rest)
  {
    hide Feed;
    var body := a + CRLF + rest;
    assert PrintArg(a) + rest == [DOLLAR] + Itoa(|a|) + CRLF + body;
    LengthLine(st, |a|, body);
    BodyFeed(st.(bulkLen := |a|), a, rest);
    assert (a + CRLF)[..|a|] == a;
    assert st.(bulkLen := |a|).(bulkLen := 0) == st;
  }

  /** Printed arguments go into the array one by one, and the last one sends the command. */
  lemma {:induction false} SafeArgsAreRead(st: State, args: CmdLine, rest: Bytes)
    requires Good(st) && st.reading && st.bulkLen == 0
    requires forall i | 0 <= i < |args| :: SafeArg(args[i])
    requires |st.args| + |args| <= st.expected
    ensures |st.args| + |args| == st.expected ==>
              Feed(st, PrintArgs(args) + rest) == Then([Data(MultiBulk(st.args + args))], Feed(REST, rest))
    ensures |st.args| + |args| < st.expected ==>
              && Good(st.(args := st.args + args))
              && Feed(st, PrintArgs(args) + rest) == Feed(st.(args := st.args + args), rest)
    decreases |args|
  {
    hide Feed, PrintArg;
    if args == [] {
      assert st.args + args == st.args;
      assert PrintArgs(args) + rest == rest;
    } else {
      var a, tail := args[0], args[1..];
      assert PrintArgs(args) + rest == PrintArg(a) + (PrintArgs(tail) + rest);
      SafeArgIsRead(st, a, PrintArgs(tail) + rest);
      assert st.args + args == (st.args + [a]) + tail;
      if |st.args| + 1 == st.expected {
        assert tail == [];
        assert PrintArgs(tail) + rest == rest;
        assert args == [a];
      } else {
        var st' := st.(args := st.args + [a]);
        SafeArgsAreRead(st', tail, rest);
        ThenNothing(Feed(st', PrintArgs(tail) + rest));
      }
    }
  }

  function AfterHeader(count: nat): State {
    State(true, count, STAR, [], 0)
  }

  lemma HeaderIsRead(count: nat, rest: Bytes)
    ensures Feed(REST, PrintHeader(count) + rest) ==
            if count > UINT32_MAX then Then([Malformed(ArrayHeader(PrintHeader(count)))], Feed(REST, rest))
            else if count == 0 then Then([Data(EmptyMultiBulk)], Feed(REST, rest))
            else Feed(AfterHeader(count), rest)
  {
    hide Feed;
    var line := [STAR] + Itoa(count);
    HeaderText(STAR, count);
    LineFeed(REST, line, rest);
    assert (line + CRLF)[..|line|] == line;
    if 0 < count <= UINT32_MAX {
      ThenNothing(Feed(AfterHeader(count), rest));
    }
  }

  /** One printed command, followed by anything, is read as that command and then the rest. */
  lemma CommandRoundTrip(cmd: CmdLine, rest: Bytes)
    requires WireSafe(cmd)
    ensures Feed(REST, Print(cmd) + rest) == Then([Data(MultiBulk(cmd))], Feed(REST, rest))
  {
    hide Feed, PrintArgs;
    Assoc(PrintHeader(|cmd|), PrintArgs(cmd), rest);
    HeaderIsRead(|cmd|, PrintArgs(cmd) + rest);
    SafeArgsAreRead(AfterHeader(|cmd|), cmd, rest);
    assert [] + cmd == cmd;
  }

  /** Pipelined commands come out one for one and in order, whatever bytes follow. */
  lemma {:induction false} StreamRoundTrip(cmds: seq<CmdLine>, rest: Bytes)
    requires forall i | 0 <= i < |cmds| :: WireSafe(cmds[i])
    ensures Feed(REST, PrintAll(cmds) + rest) == Then(Sent(cmds), Feed(REST, rest))
  {
    hide Feed, Print;
    if cmds == [] {
      assert PrintAll(cmds) + rest == rest;
      ThenNothing(Feed(REST, rest));
    } else {
      var tail := cmds[1..];
      Assoc(Print(cmds[0]), PrintAll(tail), rest);
      CommandRoundTrip(cmds[0], PrintAll(tail) + rest);
      StreamRoundTrip(tail, rest);
      assert Sent(cmds) == [Data(MultiBulk(cmds[0]))] + Sent(tail);
      ThenThen([Data(MultiBulk(cmds[0]))], Sent(tail), Feed(REST, rest));
    }
  }

  lemma NothingReceived()
    ensures Feed(REST, []) == Waiting([], REST, [])
  {
  }

  lemma WholeStream(cmds: seq<CmdLine>)
    requires forall i | 0 <= i < |cmds| :: WireSafe(cmds[i])
    ensures Feed(REST, PrintAll(cmds)) == Waiting(Sent(cmds), REST, [])
  {
    hide Feed, PrintAll;
    StreamRoundTrip(cmds, []);
    assert PrintAll(cmds) + [] == PrintAll(cmds);
    NothingReceived();
  }

  lemma QuietTurn(st: State, msg: Bytes)
    requires Good(st) && EndsLine(msg)
    ensures var t := OnMessage(st, msg); t.Continue? && t.out == [] ==> t.st.reading
  {
  }

  /** The parser goes back to rest only by sending a payload. */
  lemma {:induction false} SilenceIsWaiting(st: State, input: Bytes)
    requires Good(st)
    requires Feed(st, input).Waiting? && Feed(st, input).out == [] && Feed(st, input).st == REST
    ensures st == REST && Feed(st, input).left == input
    decreases |input|
  {
    hide OnMessage, NextLine;
    var r := NextLine(st.bulkLen, input);
    if r.Line? {
      QuietTurn(st, r.msg);
      var t := OnMessage(st, r.msg);
      assert t.out == [];
      SilenceIsWaiting(t.st, r.rest);
      assert false;
    }
  }

  /** Half a command is no command: a strict prefix sends nothing and leaves the parser waiting, so
      that at the end of the stream there is one I/O error and nothing else. */
  lemma TruncatedCommand(cmd: CmdLine, part: Bytes)
    requires WireSafe(cmd) && part < Print(cmd)
    ensures Feed(REST, part).Waiting? && Feed(REST, part).out == []
    ensures exists unexpected :: Parse(part) == Closed([IoError(unexpected)])
  {
    hide Feed, Print;
    var missing := Print(cmd)[|part|..];
    assert Print(cmd) == part + missing;
    WholeStream([cmd]);
    assert PrintAll([cmd]) == Print(cmd) by {
      assert [cmd][1..] == [];
    }
    FeedInPieces(REST, part, missing);
    var p := Feed(REST, part);
    assert p.out + Feed(p.st, p.left + missing).out == Sent([cmd]);
    if p.out != [] {
      assert |p.out| == 1 && Feed(p.st, p.left + missing).out == [];
      SilenceIsWaiting(p.st, p.left + missing);
      assert false;
    }
    assert Parse(part) == Closed([IoError(p.st.bulkLen > 0 && p.left != [])]);
  }

  /** Printing what was parsed: a command from arbitrary bytes, inline lines included, survives
      being printed and parsed again when it has no empty argument. */
  lemma PrintAfterParse(input: Bytes, cmd: CmdLine, rest: Bytes)
    requires Data(MultiBulk(cmd)) in Feed(REST, input).out
    requires forall i | 0 <= i < |cmd| :: 1 <= |cmd[i]| <= MAX_ARG
    ensures WireSafe(cmd)
    ensures Feed(REST, Print(cmd) + rest) == Then([Data(MultiBulk(cmd))], Feed(REST, rest))
  {
    hide Feed, Print;
    EmittedCommandsAreSound(REST, input);
    assert SoundPayload(Data(MultiBulk(cmd)));
    forall i | 0 <= i < |cmd| ensures SafeArg(cmd[i]) {
    }
    CommandRoundTrip(cmd, rest);
  }

  /** A blank line kills the parser, in front of a message and inside an array. */
  lemma BlankLineKills(st: State, rest: Bytes)
    requires Good(st) && st.bulkLen == 0
    ensures Feed(st, CRLF + rest) == Dead([])
  {
    assert CRLF + rest == [CR] + ([LF] + rest);
    ReadToFirst([CR], LF, rest);
    assert [CR] + [LF] == CRLF;
    assert NextLine(0, CRLF + rest) == Line(CRLF, rest);
    assert OnMessage(st, CRLF) == Abort;
  }

  /** An empty argument is printed as `$-1` and a blank line. */
  lemma EmptyArgKills(st: State, rest: Bytes)
    requires Good(st) && st.reading && st.bulkLen == 0
    ensures Feed(st, PrintArg([]) + rest).Dead?
  {
    hide Feed, Itoa;
    MinusOne();
    assert PrintArg([]) + rest == [DOLLAR] + Itoa(-1) + CRLF + (CRLF + rest);
    LengthLine(st, -1, CRLF + rest);
    BlankLineKills(AddArg(st, []).st, rest);
  }

  lemma MinusOne()
    ensures NULL_BULK == [DOLLAR] + Itoa(-1) + CRLF
  {
    assert Digits(1) == [49];
  }

  /** A null bulk among the arguments, as the protocol writes it, is an empty argument: so a client can
      have an empty value stored. */
  lemma NullArgumentIsEmpty(args: CmdLine, rest: Bytes)
    requires WireSafe(args) && |args| < UINT32_MAX
    ensures Feed(REST, PrintHeader(|args| + 1) + PrintArgs(args) + NULL_BULK + rest)
            == Then([Data(MultiBulk(args + [[]]))], Feed(REST, rest))
  {
    hide Feed, Itoa, PrintHeader, PrintArgs;
    var st := AfterHeader(|args| + 1);
    Assoc(PrintHeader(|args| + 1), PrintArgs(args), NULL_BULK);
    Assoc(PrintHeader(|args| + 1), PrintArgs(args) + NULL_BULK, rest);
    Assoc(PrintArgs(args), NULL_BULK, rest);
    HeaderIsRead(|args| + 1, PrintArgs(args) + (NULL_BULK + rest));
    SafeArgsAreRead(st, args, NULL_BULK + rest);
    MinusOne();
    LengthLine(st.(args := args), -1, rest);
    assert [] + args == args;
  }

  lemma OversizedArg(st: State, a: Bytes, rest: Bytes)
    requires Good(st) && st.reading && st.bulkLen == 0 && |a| > MAX_ARG
    ensures var p := Feed(st, PrintArg(a) + rest);
      || p == Dead([])
      || (p.out != [] && p.out[0].Malformed?)
  {
    hide Feed, Itoa;
    var body := a + CRLF + rest;
    assert PrintArg(a) + rest == [DOLLAR] + Itoa(|a|) + CRLF + body;
    hide PrintArg;
    LengthLine(st, |a|, body);
    if IsInt64(|a|) {
      LengthOverflow(st.(bulkLen := |a|), body);
    }
  }

  predicate NoEmpty(cmd: CmdLine) {
    forall i | 0 <= i < |cmd| :: cmd[i] != []
  }

  /** The shape of every command a client can have sent: at most 2^32-1 arguments of lengths Go can
      hold, none starting with `$`. Only emptiness is left to go wrong. */
  predicate Parsed(cmd: CmdLine) {
    && 1 <= |cmd| <= UINT32_MAX
    && NoDollar(cmd)
    && forall i | 0 <= i < |cmd| :: |cmd[i]| <= MAX_ARG
  }

  lemma ParsedIsSafe(cmd: CmdLine)
    requires Parsed(cmd)
    ensures WireSafe(cmd) <==> NoEmpty(cmd)
  {
    forall i | 0 <= i < |cmd| && cmd[i] != [] ensures SafeArg(cmd[i]) {
    }
    if WireSafe(cmd) {
      forall i | 0 <= i < |cmd| ensures cmd[i] != [] {
        assert SafeArg(cmd[i]);
      }
    }
  }

  /** Index of the first argument that is not safe. */
  function FirstUnsafe(cmd: CmdLine): (i: nat)
    ensures i <= |cmd|
    ensures forall j | 0 <= j < i :: SafeArg(cmd[j])
    ensures i < |cmd| ==> !SafeArg(cmd[i])
  {
    if cmd == [] || !SafeArg(cmd[0]) then 0
    else
      var i := FirstUnsafe(cmd[1..]) + 1;
      assert forall j | 0 <= j < i :: j > 0 ==> cmd[j] == cmd[1..][j - 1];
      i
  }

  lemma {:induction false} PrintArgsSplit(args: CmdLine, i: nat)
    requires i < |args|
    ensures PrintArgs(args) == PrintArgs(args[..i]) + (PrintArg(args[i]) + PrintArgs(args[i + 1..]))
  {
    hide PrintArg;
    if i == 0 {
      assert PrintArgs(args[..0]) == [];
    } else {
      PrintArgsSplit(args[1..], i - 1);
      assert args[..i][1..] == args[1..][..i - 1];
      assert args[i + 1..] == args[1..][i..];
      Assoc(PrintArg(args[0]), PrintArgs(args[..i][1..]), PrintArg(args[i]) + PrintArgs(args[i + 1..]));
    }
  }

  /** The parser reaches the first unsafe argument with the safe ones in hand. */
  lemma ReachesUnsafe(cmd: CmdLine, i: nat, rest: Bytes)
    requires 1 <= |cmd| <= UINT32_MAX && i == FirstUnsafe(cmd) < |cmd|
    ensures var st := AfterHeader(|cmd|).(args := cmd[..i]);
      && Good(st)
      && Feed(REST, Print(cmd) + rest) == Feed(st, PrintArg(cmd[i]) + (PrintArgs(cmd[i + 1..]) + rest))
  {
    hide Feed, PrintArg, PrintArgs;
    var st, tail := AfterHeader(|cmd|), PrintArg(cmd[i]) + (PrintArgs(cmd[i + 1..]) + rest);
    PrintArgsSplit(cmd, i);
    assert Print(cmd) + rest == PrintHeader(|cmd|) + (PrintArgs(cmd[..i]) + tail);
    HeaderIsRead(|cmd|, PrintArgs(cmd[..i]) + tail);
    SafeArgsAreRead(st, cmd[..i], tail);
    assert st.args + cmd[..i] == cmd[..i];
  }

  /** A command with an empty argument, once printed, ends the parser's goroutine. */
  lemma EmptyArgumentKills(cmd: CmdLine, rest: Bytes)
    requires Parsed(cmd) && !NoEmpty(cmd)
    ensures Feed(REST, Print(cmd) + rest).Dead?
  {
    hide Feed, Print;
    var i := FirstUnsafe(cmd);
    if i == |cmd| {
      ParsedIsSafe(cmd);
      assert false;
    }
    ReachesUnsafe(cmd, i, rest);
    EmptyArgKills(AfterHeader(|cmd|).(args := cmd[..i]), PrintArgs(cmd[i + 1..]) + rest);
  }

  /** In front of any stream, the printed command is read as the command. */
  ghost predicate ReadsBack(cmd: CmdLine) {
    forall rest :: Feed(REST, Print(cmd) + rest) == Then([Data(MultiBulk(cmd))], Feed(REST, rest))
  }

  /** Printing and parsing a command gives it back, in front of any stream, exactly when it is
      wire-safe: non-empty, not too long, and with no argument empty or starting with `$`. */
  lemma RoundTripExactly(cmd: CmdLine)
    ensures ReadsBack(cmd) <==> WireSafe(cmd)
  {
    hide Feed, Print;
    if WireSafe(cmd) {
      forall rest ensures Feed(REST, Print(cmd) + rest) == Then([Data(MultiBulk(cmd))], Feed(REST, rest)) {
        CommandRoundTrip(cmd, rest);
      }
    } else {
      UnsafeIsNotReadBack(cmd, []);
      NothingReceived();
    }
  }

  /** The payloads begin with that one, and the parser is still alive. */
  predicate StartsWith(p: Progress, payload: Payload) {
    p.Waiting? && p.out != [] && p.out[0] == payload
  }

  lemma UnsafeIsNotReadBack(cmd: CmdLine, rest: Bytes)
    requires !WireSafe(cmd)
    ensures !StartsWith(Feed(REST, Print(cmd) + rest), Data(MultiBulk(cmd)))
  {
    hide Feed, PrintArg, PrintArgs;
    var p := Feed(REST, Print(cmd) + rest);
    if |cmd| == 0 || |cmd| > UINT32_MAX {
      Assoc(PrintHeader(|cmd|), PrintArgs(cmd), rest);
      HeaderIsRead(|cmd|, PrintArgs(cmd) + rest);
      assert p.out[0] != Data(MultiBulk(cmd));
    } else if !NoDollar(cmd) {
      EmittedCommandsAreSound(REST, Print(cmd) + rest);
      assert !SoundPayload(Data(MultiBulk(cmd)));
    } else {
      var i := FirstUnsafe(cmd);
      assert i < |cmd|;
      ReachesUnsafe(cmd, i, rest);
      var st, tail := AfterHeader(|cmd|).(args := cmd[..i]), PrintArgs(cmd[i + 1..]) + rest;
      if cmd[i] == [] {
        EmptyArgKills(st, tail);
      } else {
        OversizedArg(st, cmd[i], tail);
      }
    }
  }

  /** One payload more in front. */
  lemma ThenExactly(payload: Payload, p: Progress, out: seq<Payload>)
    ensures Then([payload], p) == Waiting([payload] + out, REST, []) <==> p == Waiting(out, REST, [])
  {
    assert ([payload] + p.out)[1..] == p.out && ([payload] + out)[1..] == out;
  }

  /** Pipelined commands come out as they went in exactly when every one of them is wire-safe. */
  lemma {:induction false} StreamRoundTripExactly(cmds: seq<CmdLine>)
    ensures Feed(REST, PrintAll(cmds)) == Waiting(Sent(cmds), REST, [])
            <==> forall i | 0 <= i < |cmds| :: WireSafe(cmds[i])
  {
    hide Feed, Print, WireSafe;
    NothingReceived();
    if cmds != [] {
      var tail := cmds[1..];
      assert forall i | 0 <= i < |tail| :: tail[i] == cmds[i + 1];
      assert (forall i | 0 <= i < |cmds| :: WireSafe(cmds[i])) <==>
             WireSafe(cmds[0]) && forall i | 0 <= i < |tail| :: WireSafe(tail[i]) by {
        assert forall i | 0 < i < |cmds| :: cmds[i] == tail[i - 1];
      }
      assert Sent(cmds) == [Data(MultiBulk(cmds[0]))] + Sent(tail);
      StreamRoundTripExactly(tail);
      if WireSafe(cmds[0]) {
        CommandRoundTrip(cmds[0], PrintAll(tail));
        ThenExactly(Data(MultiBulk(cmds[0])), Feed(REST, PrintAll(tail)), Sent(tail));
      } else {
        UnsafeIsNotReadBack(cmds[0], PrintAll(tail));
      }
    }
  }
}
