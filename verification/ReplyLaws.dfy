/** Which replies survive the trip from a server to a client of this repository. */
module ReplyLaws {
  import opened ByteStrings
  import opened Strconv
  import opened Replies
  import opened Parser
  import opened ParserLaws

  /** What the client's parser makes of a reply: a bulk string comes back as a one-element array,
      and the fixed replies as plain status or error lines. */
  function Received(r: Reply): Reply {
    match r
    case Pong => Status(Ascii("PONG"))
    case Ok => Status(Ascii("OK"))
    case Bulk(arg) => MultiBulk([arg])
    case ArgNumError(cmd) => Error(ArgNumText(cmd))
    case UnknownError => Error(Ascii("Err unknown"))
    case _ => r
  }

  predicate Travels(r: Reply) {
    match r
    case EmptyMultiBulk => false
    case Bulk(arg) => SafeArg(arg)
    case MultiBulk(args) => WireSafe(args)
    case Status(s) => LF !in s
    case Int(n) => IsInt64(n)
    case Error(s) => LF !in s
    case ArgNumError(cmd) => LF !in cmd
    case _ => true
  }

  /** The texts of the replies without a value of their own. */
  lemma FixedReplies(cmd: Bytes)
    ensures ToBytes(Pong) == Ascii("+PONG\r\n") && ToBytes(Ok) == Ascii("+OK\r\n")
    ensures ToBytes(NullBulk) == Ascii("$-1\r\n") && ToBytes(EmptyMultiBulk) == Ascii("$*0\r\n")
    ensures ToBytes(Bulk([])) == Ascii("$-1") && ToBytes(UnknownError) == Ascii("-Err unknown\r\n")
    ensures ToBytes(ArgNumError(cmd))
            == [MINUS] + Ascii("ERR wrong number of arguments for '") + cmd + Ascii("'commend\r\n")
  {
    hide Ascii;
    LineText(PLUS, "PONG", "+PONG\r\n");
    LineText(PLUS, "OK", "+OK\r\n");
    LineText(MINUS, "Err unknown", "-Err unknown\r\n");
    assert [DOLLAR] + [MINUS, 49] == Ascii("$-1");
    assert NULL_BULK == Ascii("$-1\r\n");
    assert ToBytes(EmptyMultiBulk) == Ascii("$*0\r\n");
    ArgNumErrorText(cmd);
  }

  lemma LineText(prefix: byte, text: string, line: string)
    requires |line| == |text| + 3 && line[1..|text| + 1] == text && line[0] as int == prefix as int
    requires line[|text| + 1] == '\r' && line[|text| + 2] == '\n'
    ensures [prefix] + Ascii(text) + CRLF == Ascii(line)
  {
  }

  lemma ArgNumErrorText(cmd: Bytes)
    ensures ToBytes(ArgNumError(cmd))
            == [MINUS] + Ascii("ERR wrong number of arguments for '") + cmd + Ascii("'commend\r\n")
  {
    hide Ascii;
    var front, back := Ascii("ERR wrong number of arguments for '"), Ascii("'commend");
    LineEndText("'commend", "'commend\r\n");
    Assoc([MINUS], front + cmd + back, CRLF);
    Assoc(front + cmd, back, CRLF);
    Assoc([MINUS], front + cmd, back + CRLF);
    Assoc([MINUS], front, cmd);
  }

  lemma LineEndText(text: string, line: string)
    requires |line| == |text| + 2 && line[..|text|] == text && line[|text|] == '\r' && line[|text| + 1] == '\n'
    ensures Ascii(text) + CRLF == Ascii(line)
  {
  }

  lemma StatusLine(prefix: byte, s: Bytes, rest: Bytes)
    requires prefix in {PLUS, MINUS} && LF !in s
    ensures Feed(REST, [prefix] + s + CRLF + rest) ==
            Then([Data(if prefix == PLUS then Status(s) else Error(s))], Feed(REST, rest))
  {
    hide Feed;
    var line := [prefix] + s;
    LineFeed(REST, line, rest);
    assert (line + CRLF)[..|line|] == line;
    assert line[1..] == s;
  }

  lemma IntLine(n: int, rest: Bytes)
    ensures Feed(REST, [COLON] + Itoa(n) + CRLF + rest) ==
            Then([if IsInt64(n) then Data(Int(n)) else Malformed(IntegerLine([COLON] + Itoa(n) + CRLF))],
                 Feed(REST, rest))
  {
    hide Feed, ParseInt;
    var line := [COLON] + Itoa(n);
    HeaderText(COLON, n);
    ParseIntOfItoa(n);
    LineFeed(REST, line, rest);
    assert (line + CRLF)[..|line|] == line;
  }

  function AfterLength(n: int): State {
    State(true, 1, DOLLAR, [], n)
  }

  lemma BulkHeader(n: int, rest: Bytes)
    ensures var line := [DOLLAR] + Itoa(n);
      Feed(REST, line + CRLF + rest) ==
      if IsInt64(n) && n > 0 then Feed(AfterLength(n), rest)
      else if n == -1 then Then([Data(NullBulk)], Feed(REST, rest))
      else Then([Malformed(Protocol(line + CRLF))], Feed(REST, rest))
  {
    hide Feed;
    var line := [DOLLAR] + Itoa(n);
    HeaderText(DOLLAR, n);
    ParseIntOfItoa(n);
    LineFeed(REST, line, rest);
    assert (line + CRLF)[..|line|] == line;
    if IsInt64(n) && n > 0 {
      ThenNothing(Feed(AfterLength(n), rest));
    }
  }

  lemma BulkTravels(arg: Bytes, rest: Bytes)
    requires SafeArg(arg)
    ensures Feed(REST, ToBytes(Bulk(arg)) + rest) == Then([Data(MultiBulk([arg]))], Feed(REST, rest))
  {
    hide Feed, Itoa;
    var body := arg + CRLF + rest;
    assert ToBytes(Bulk(arg)) + rest == [DOLLAR] + Itoa(|arg|) + CRLF + body;
    BulkHeader(|arg|, body);
    BodyFeed(AfterLength(|arg|), arg, rest);
    assert (arg + CRLF)[..|arg|] == arg;
    assert [] + [arg] == [arg];
  }

  /** The fixed replies are lines. */
  lemma FixedTexts()
    ensures LF !in Ascii("PONG") && LF !in Ascii("OK") && LF !in Ascii("Err unknown")
  {
    hide Ascii;
  }

  lemma ArgNumTextIsOneLine(cmd: Bytes)
    ensures LF in ArgNumText(cmd) <==> LF in cmd
  {
    hide Ascii;
    assert LF !in Ascii("ERR wrong number of arguments for '");
    assert LF !in Ascii("'commend");
  }

  /** A reply that travels is read as one reply, whatever follows it on the connection. */
  lemma ReplyTravels(r: Reply, rest: Bytes)
    requires Travels(r)
    ensures Feed(REST, ToBytes(r) + rest) == Then([Data(Received(r))], Feed(REST, rest))
  {
    hide Feed, Ascii;
    FixedTexts();
    match r {
      case Pong => StatusLine(PLUS, Ascii("PONG"), rest);
      case Ok => StatusLine(PLUS, Ascii("OK"), rest);
      case NullBulk =>
        MinusOne();
        BulkHeader(-1, rest);
      case Bulk(arg) => BulkTravels(arg, rest);
      case MultiBulk(args) => CommandRoundTrip(args, rest);
      case Status(s) => StatusLine(PLUS, s, rest);
      case Int(n) => IntLine(n, rest);
      case Error(s) => StatusLine(MINUS, s, rest);
      case ArgNumError(cmd) =>
        ArgNumTextIsOneLine(cmd);
        StatusLine(MINUS, ArgNumText(cmd), rest);
      case UnknownError => StatusLine(MINUS, Ascii("Err unknown"), rest);
    }
  }

  /** What the first line of a stream leads to. */
  lemma FirstLine(line: Bytes, rest: Bytes)
    requires ReadTo(line + rest, LF) == Some((line, rest)) && |line| >= 2 && line[0] in {PLUS, MINUS}
    ensures var p := Feed(REST, line + rest);
      p.out != [] && p.out[0] == if line[|line| - 2] != CR then Malformed(LineEnd)
                                 else ParseSingleLineReply(line[..|line| - 2], line)
  {
    hide ParseSingleLineReply, Feed, ReadTo;
    var input := line + rest;
    if line[|line| - 2] != CR {
      assert NextLine(0, input) == BadEnd(LineEnd, rest);
    } else {
      assert NextLine(0, input) == Line(line, rest);
    }
    OneRead(input);
  }

  lemma OneRead(input: Bytes)
    ensures match NextLine(0, input)
            case BadEnd(error, rest) => Feed(REST, input) == Then([Malformed(error)], Feed(REST, rest))
            case Line(msg, rest) => Feed(REST, input) == Proceed(OnMessage(REST, msg), rest)
            case NeedMore => Feed(REST, input) == Waiting([], REST, input)
            case Crash => Feed(REST, input) == Dead([])
  {
    hide OnMessage, NextLine;
  }

  /** A line feed inside a status or error text cuts it: the first payload is not that text. */
  lemma CutLine(prefix: byte, s: Bytes, rest: Bytes)
    requires prefix in {PLUS, MINUS} && LF in s
    ensures !StartsWith(Feed(REST, [prefix] + s + CRLF + rest), Data(if prefix == PLUS then Status(s) else Error(s)))
  {
    hide Feed;
    var input := [prefix] + s + CRLF + rest;
    ReadToSplits(input, LF);
    var i :| 0 <= i < |s| && s[i] == LF;
    assert input[i + 1] == LF;
    var (line, after) := ReadTo(input, LF).value;
    assert |line| <= i + 2;
    assert line[0] == input[0];
    FirstLine(line, after);
  }

  /** In front of any stream, the reply is received as one reply. */
  ghost predicate IsReceived(r: Reply) {
    forall rest :: Feed(REST, ToBytes(r) + rest) == Then([Data(Received(r))], Feed(REST, rest))
  }

  /** Exactly the replies of `Travels` are read back as one reply and nothing else. An empty bulk
      reply, sent without a line end, and the empty array, sent as `$*0`, are not. */
  lemma TravelsExactly(r: Reply)
    ensures IsReceived(r) <==> Travels(r)
  {
    hide Feed, ToBytes, Received;
    if Travels(r) {
      forall rest ensures Feed(REST, ToBytes(r) + rest) == Then([Data(Received(r))], Feed(REST, rest)) {
        ReplyTravels(r, rest);
      }
    } else {
      DoesNotTravel(r, []);
      NothingReceived();
    }
  }

  /** Whatever follows a reply that does not travel, it is not what the client receives first. */
  lemma DoesNotTravel(r: Reply, rest: Bytes)
    requires !Travels(r)
    ensures !StartsWith(Feed(REST, ToBytes(r) + rest), Data(Received(r)))
  {
    hide Feed, Ascii, PrintArg, PrintArgs, StartsWith;
    match r {
      case EmptyMultiBulk => EmptyMultiBulkIsMalformed(rest);
      case Bulk(arg) => UnsafeBulk(arg, rest);
      case MultiBulk(args) => UnsafeIsNotReadBack(args, rest);
      case Status(s) => CutLine(PLUS, s, rest);
      case Int(n) => HugeInt(n, rest);
      case Error(s) => CutLine(MINUS, s, rest);
      case ArgNumError(cmd) =>
        ArgNumTextIsOneLine(cmd);
        CutLine(MINUS, ArgNumText(cmd), rest);
    }
  }

  lemma HugeInt(n: int, rest: Bytes)
    requires !IsInt64(n)
    ensures !StartsWith(Feed(REST, ToBytes(Int(n)) + rest), Data(Int(n)))
  {
    hide Feed, Itoa;
    IntLine(n, rest);
  }

  lemma EmptyMultiBulkIsMalformed(rest: Bytes)
    ensures var p, bytes := Feed(REST, ToBytes(EmptyMultiBulk) + rest), ToBytes(EmptyMultiBulk);
      p == Then([Malformed(Protocol(bytes))], Feed(REST, rest)) && !StartsWith(p, Data(EmptyMultiBulk))
  {
    hide Feed;
    var line := [DOLLAR, STAR, 48];
    LineFeed(REST, line, rest);
    assert (line + CRLF)[..3] == line;
    assert !IsDigit(line[1..][0]);
  }

  /** The reply to a GET of an empty value has no line end: the client waits, and takes the bytes of
      the next reply for its rest. */
  lemma EmptyBulkReplyHangs()
    ensures Feed(REST, ToBytes(Bulk([]))) == Waiting([], REST, ToBytes(Bulk([])))
  {
  }

  /** The bytes after an empty bulk reply become part of its line, which is no command. */
  lemma EmptyBulkTakesTheNextLine(rest: Bytes)
    ensures !StartsWith(Feed(REST, ToBytes(Bulk([])) + rest), Data(MultiBulk([[]])))
  {
    hide Feed, ReadTo, ParseInt;
    var input := [DOLLAR, MINUS, 49] + rest;
    OneRead(input);
    ReadToSplits(input, LF);
    if ReadTo(input, LF).Some? {
      var (line, after) := ReadTo(input, LF).value;
      assert line[0] == input[0];
      if NextLine(0, input).Line? {
        assert line[1] == input[1] && line[2] == input[2];
        LengthIsNegative(line);
      }
    }
  }

  lemma LengthIsNegative(msg: Bytes)
    requires EndsLine(msg) && |msg| >= 3 && msg[..3] == [DOLLAR, MINUS, 49]
    ensures OnMessage(REST, msg) in [Continue([Data(NullBulk)], REST), Continue([Malformed(Protocol(msg))], REST)]
  {
    hide ParseUint;
    var text := msg[..|msg| - 2][1..];
    assert text[0] == MINUS;
  }

  lemma UnsafeBulk(arg: Bytes, rest: Bytes)
    requires !SafeArg(arg)
    ensures !StartsWith(Feed(REST, ToBytes(Bulk(arg)) + rest), Data(MultiBulk([arg])))
  {
    hide Feed, Itoa;
    var bytes := ToBytes(Bulk(arg)) + rest;
    if arg == [] {
      EmptyBulkTakesTheNextLine(rest);
    } else if arg[0] == DOLLAR {
      EmittedCommandsAreSound(REST, bytes);
      assert [arg][0] == arg;
      assert !SoundPayload(Data(MultiBulk([arg])));
    } else {
      var body := arg + CRLF + rest;
      assert bytes == [DOLLAR] + Itoa(|arg|) + CRLF + body;
      BulkHeader(|arg|, body);
      if IsInt64(|arg|) {
        LengthOverflow(AfterLength(|arg|), body);
      }
    }
  }

  function PrintReplies(rs: seq<Reply>): Bytes {
    if rs == [] then [] else ToBytes(rs[0]) + PrintReplies(rs[1..])
  }

  function ReceivedAll(rs: seq<Reply>): (out: seq<Payload>)
    ensures |out| == |rs|
  {
    seq(|rs|, i requires 0 <= i < |rs| => Data(Received(rs[i])))
  }

  /** Pipelined replies are received as they were sent exactly when every one of them travels. */
  lemma {:induction false} RepliesTravelExactly(rs: seq<Reply>)
    ensures Feed(REST, PrintReplies(rs)) == Waiting(ReceivedAll(rs), REST, [])
            <==> forall i | 0 <= i < |rs| :: Travels(rs[i])
  {
    hide Feed, ToBytes, Received, Travels;
    NothingReceived();
    if rs != [] {
      var tail := rs[1..];
      assert forall i | 0 <= i < |tail| :: tail[i] == rs[i + 1];
      assert (forall i | 0 <= i < |rs| :: Travels(rs[i])) <==>
             Travels(rs[0]) && forall i | 0 <= i < |tail| :: Travels(tail[i]) by {
        assert forall i | 0 < i < |rs| :: rs[i] == tail[i - 1];
      }
      assert ReceivedAll(rs) == [Data(Received(rs[0]))] + ReceivedAll(tail);
      RepliesTravelExactly(tail);
      if Travels(rs[0]) {
        ReplyTravels(rs[0], PrintReplies(tail));
        ThenExactly(Data(Received(rs[0])), Feed(REST, PrintReplies(tail)), ReceivedAll(tail));
      } else {
        DoesNotTravel(rs[0], PrintReplies(tail));
      }
    }
  }
}
