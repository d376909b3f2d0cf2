/** The stream parser of resp/parser/parser.go: its meaning as functions over the bytes
    received so far, and the loop itself, proved to compute that meaning. */
module Parser {
  import opened ByteStrings
  import opened Strconv
  import opened Replies

  datatype ProtocolError =
    | LineEnd
    | BulkEnd
    | ArrayHeader(msg: Bytes)
    | Protocol(msg: Bytes)
    | IntegerLine(msg: Bytes)

  /** What the parser sends on its channel. `NoData` carries neither a reply nor an error. */
  datatype Payload =
    | Data(reply: Reply)
    | NoData
    | Malformed(error: ProtocolError)
    | IoError(unexpected: bool)

  /** The fields of `readState`. */
  datatype State = State(reading: bool, expected: int, msgType: byte, args: CmdLine, bulkLen: int)

  const REST := State(false, 0, 0, [], 0)

  /** No argument can start with `$`: `readBody` takes such a body for a length line. */
  predicate NoDollar(args: CmdLine) {
    forall i | 0 <= i < |args| :: args[i] == [] || args[i][0] != DOLLAR
  }

  /** What holds of the state at every head of the parser's loop. */
  predicate Good(st: State) {
    || st == REST
    || (&& st.reading
        && (st.msgType == STAR || st.msgType == DOLLAR)
        && 0 <= st.bulkLen <= INT64_MAX
        && |st.args| < st.expected <= UINT32_MAX
        && NoDollar(st.args))
  }

  /** 64-bit two's-complement wrap-around of the sum of two non-negative int64 values. */
  function WrapAdd(a: int, b: int): (r: int)
    requires 0 <= a <= INT64_MAX && 0 <= b <= INT64_MAX
    ensures IsInt64(r)
  {
    if a + b <= INT64_MAX then a + b else a + b - 2 * (INT64_MAX + 1)
  }

  datatype Read =
    | Line(msg: Bytes, rest: Bytes)
    | BadEnd(error: ProtocolError, rest: Bytes)
    | NeedMore
    | Crash

  predicate EndsLine(msg: Bytes)
  {
    |msg| >= 2 && msg[|msg| - 2] == CR && msg[|msg| - 1] == LF
  }

  /** One call of `readLine`: up to a line feed, or exactly `bulkLen` bytes and a line end. A lone
      line feed, or a length that overflows, is an index or allocation panic. */
  function NextLine(bulkLen: int, input: Bytes): (r: Read)
    requires 0 <= bulkLen <= INT64_MAX
    ensures r.Line? ==> EndsLine(r.msg) && |r.rest| < |input|
    ensures r.BadEnd? ==> |r.rest| < |input|
  {
    if bulkLen == 0 then
      match ReadTo(input, LF)
      case None => NeedMore
      case Some((msg, rest)) =>
        if |msg| < 2 then Crash
        else if msg[|msg| - 2] != CR then BadEnd(LineEnd, rest)
        else Line(msg, rest)
    else
      var n := WrapAdd(bulkLen, 2);
      if n < 0 then Crash
      else if |input| < n then NeedMore
      else if input[n - 2] != CR || input[n - 1] != LF then BadEnd(BulkEnd, input[n..])
      else Line(input[..n], input[n..])
  }

  datatype Turn = Continue(out: seq<Payload>, st: State) | Abort

  function ParseSingleLineReply(line: Bytes, msg: Bytes): Payload
    requires line != []
  {
    if line[0] == PLUS then Data(Status(line[1..]))
    else if line[0] == MINUS then Data(Error(line[1..]))
    else if line[0] == COLON then
      match ParseInt(line[1..])
      case None => Malformed(IntegerLine(msg))
      case Some(n) => Data(Int(n))
    else NoData
  }

  /** `parse0` outside an array: a header, or a one-line reply. */
  function OnHeader(st: State, msg: Bytes): (t: Turn)
    requires st == REST && EndsLine(msg)
    ensures t.Continue? ==> Good(t.st)
  {
    var line := msg[..|msg| - 2];
    if msg[0] == STAR then
      match ParseUint(line[1..], UINT32_MAX)
      case None => Continue([Malformed(ArrayHeader(msg))], REST)
      case Some(n) =>
        if n == 0 then Continue([Data(EmptyMultiBulk)], REST)
        else Continue([], State(true, n, STAR, [], st.bulkLen))
    else if msg[0] == DOLLAR then
      match ParseInt(line[1..])
      case None => Continue([Malformed(Protocol(msg))], REST)
      case Some(n) =>
        if n == -1 then Continue([Data(NullBulk)], REST)
        else if n > 0 then Continue([], State(true, 1, DOLLAR, [], n))
        else Continue([Malformed(Protocol(msg))], REST)
    else if line == [] then Abort
    else Continue([ParseSingleLineReply(line, msg)], REST)
  }

  /** The state after one more argument, sent off when it was the last one. */
  function AddArg(st: State, arg: Bytes): (t: Turn)
    requires Good(st) && st.reading && st.bulkLen == 0
    requires arg == [] || arg[0] != DOLLAR
    ensures t.Continue? && Good(t.st)
  {
    var args := st.args + [arg];
    if |args| == st.expected then Continue([Data(MultiBulk(args))], REST)
    else Continue([], st.(args := args))
  }

  /** `parse0` inside an array: `readBody`, then the check for the last argument. */
  function OnBody(st: State, msg: Bytes): (t: Turn)
    requires Good(st) && st.reading && st.bulkLen == 0 && EndsLine(msg)
    ensures t.Continue? ==> Good(t.st)
  {
    var line := msg[..|msg| - 2];
    if line == [] then Abort
    else if line[0] != DOLLAR then AddArg(st, line)
    else
      match ParseInt(line[1..])
      case None => Continue([Malformed(Protocol(msg))], REST)
      case Some(n) => if n <= 0 then AddArg(st, []) else Continue([], st.(bulkLen := n))
  }

  function OnMessage(st: State, msg: Bytes): (t: Turn)
    requires Good(st) && EndsLine(msg)
    ensures t.Continue? ==> Good(t.st)
  {
    if st.reading then OnBody(st.(bulkLen := 0), msg) else OnHeader(st, msg)
  }

  /** How far the parser gets on the bytes received so far: it waits for more with `left` not yet
      used, or its goroutine has died of a panic, leaving the channel open for ever. */
  datatype Progress =
    | Waiting(out: seq<Payload>, st: State, left: Bytes)
    | Dead(out: seq<Payload>)

  function Then(out: seq<Payload>, p: Progress): Progress {
    p.(out := out + p.out)
  }

  function Feed(st: State, input: Bytes): (p: Progress)
    requires Good(st)
    ensures p.Waiting? ==> Good(p.st)
    decreases |input|
  {
    match NextLine(st.bulkLen, input)
    case NeedMore => Waiting([], st, input)
    case Crash => Dead([])
    case BadEnd(error, rest) => Then([Malformed(error)], Feed(REST, rest))
    case Line(msg, rest) =>
      match OnMessage(st, msg)
      case Abort => Dead([])
      case Continue(out, st') => Then(out, Feed(st', rest))
  }

  datatype Outcome = Closed(out: seq<Payload>) | Stuck(out: seq<Payload>)

  /** The whole of a stream that ends after `input`. Only `io.ReadFull` tells a cut body apart. */
  function Parse(input: Bytes): Outcome {
    match Feed(REST, input)
    case Waiting(out, st, left) => Closed(out + [IoError(st.bulkLen > 0 && left != [])])
    case Dead(out) => Stuck(out)
  }

  /** `bufio.Reader` over a stream that ends after `rest`. */
  class BufReader {
    var rest: Bytes

    constructor (input: Bytes)
      ensures rest == input
    {
      rest := input;
    }

    method ReadBytes(delim: byte) returns (msg: Bytes, eof: bool)
      modifies this
      ensures match ReadTo(old(rest), delim)
              case None => eof && msg == old(rest) && rest == []
              case Some((line, left)) => !eof && msg == line && rest == left
    {
      match ReadTo(rest, delim)
      case None => msg, rest, eof := rest, [], true;
      case Some((line, left)) => msg, rest, eof := line, left, false;
    }

    method ReadFull(n: nat) returns (msg: Bytes, eof: bool, unexpected: bool)
      modifies this
      ensures eof <==> |old(rest)| < n
      ensures unexpected <==> eof && old(rest) != []
      ensures old(rest) == msg + rest
      ensures !eof ==> |msg| == n
    {
      if |rest| < n {
        unexpected := rest != [];
        msg, rest, eof := rest, [], true;
      } else {
        msg, rest, eof, unexpected := rest[..n], rest[n..], false, false;
      }
    }
  }

  datatype LineRead = Got(msg: Bytes) | Failed(error: ProtocolError) | Ended(unexpected: bool) | Panicked

  /** `readState`, with the functions of parser.go that overwrite it. */
  class ReadState {
    var readingMultiLine: bool
    var expectedArgsCount: int
    var msgType: byte
    var args: CmdLine
    var bulkLen: int

    ghost function Value(): State
      reads this
    {
      State(readingMultiLine, expectedArgsCount, msgType, args, bulkLen)
    }

    constructor ()
      ensures Value() == REST
    {
      readingMultiLine, expectedArgsCount, msgType, args, bulkLen := false, 0, 0, [], 0;
    }

    method Reset()
      modifies this
      ensures Value() == REST
    {
      readingMultiLine, expectedArgsCount, msgType, args, bulkLen := false, 0, 0, [], 0;
    }

    predicate Finished()
      reads this
    {
      expectedArgsCount > 0 && |args| == expectedArgsCount
    }

    method ReadLine(reader: BufReader) returns (r: LineRead)
      requires 0 <= bulkLen <= INT64_MAX
      modifies reader, this`bulkLen
      ensures match NextLine(old(bulkLen), old(reader.rest))
              case NeedMore => r == Ended(old(bulkLen) > 0 && old(reader.rest) != [])
              case Crash => r == Panicked
              case BadEnd(e, rest) => r == Failed(e) && reader.rest == rest
              case Line(msg, rest) => r == Got(msg) && reader.rest == rest && bulkLen == 0
    {
      if bulkLen == 0 {
        var msg, eof := reader.ReadBytes(LF);
        if eof {
          return Ended(false);
        }
        if |msg| < 2 {
          return Panicked;
        }
        if msg[|msg| - 2] != CR || msg[|msg| - 1] != LF {
          return Failed(LineEnd);
        }
        return Got(msg);
      }
      var n := WrapAdd(bulkLen, 2);
      if n < 0 {
        return Panicked;
      }
      var msg, eof, unexpected := reader.ReadFull(n);
      if eof {
        return Ended(unexpected);
      }
      if msg[|msg| - 2] != CR || msg[|msg| - 1] != LF {
        return Failed(BulkEnd);
      }
      bulkLen := 0;
      return Got(msg);
    }

    method ParseMultiBulkHeader(msg: Bytes) returns (ok: bool)
      requires Value() == REST && EndsLine(msg) && msg[0] == STAR
      modifies this
      ensures var n := ParseUint(msg[1..|msg| - 2], UINT32_MAX);
        && ok == n.Some?
        && (ok && n.value > 0 ==> Value() == State(true, n.value, STAR, [], 0))
        && (ok && n.value == 0 ==> expectedArgsCount == 0)
        && (ok && n.value > 0 ==> expectedArgsCount > 0)
    {
      match ParseUint(msg[1..|msg| - 2], UINT32_MAX)
      case None => ok := false;
      case Some(n) =>
        ok := true;
        if n == 0 {
          expectedArgsCount := 0;
        } else {
          msgType := msg[0];
          readingMultiLine := true;
          expectedArgsCount := n;
          args := [];
        }
    }

    method ParseBulkHeader(msg: Bytes) returns (ok: bool)
      requires Value() == REST && EndsLine(msg) && msg[0] == DOLLAR
      modifies this
      ensures var n := ParseInt(msg[1..|msg| - 2]);
        && ok == (n.Some? && (n.value == -1 || n.value > 0))
        && (ok ==> bulkLen == n.value)
        && (ok && n.value > 0 ==> Value() == State(true, 1, DOLLAR, [], n.value))
    {
      match ParseInt(msg[1..|msg| - 2])
      case None => ok := false;
      case Some(n) =>
        bulkLen := n;
        if bulkLen == -1 {
          ok := true;
        } else if bulkLen > 0 {
          readingMultiLine := true;
          msgType := msg[0];
          expectedArgsCount := 1;
          args := [];
          ok := true;
        } else {
          ok := false;
        }
    }

    /** `panicked` when the body is a bare line end. */
    method ReadBody(msg: Bytes) returns (ok: bool, panicked: bool)
      requires Good(Value()) && readingMultiLine && bulkLen == 0 && EndsLine(msg)
      modifies this
      ensures msgType == old(msgType)
      ensures readingMultiLine && expectedArgsCount == old(expectedArgsCount)
      ensures match OnBody(old(Value()), msg)
              case Abort => panicked
              case Continue(out, st) =>
                && !panicked
                && (ok <==> out != [Malformed(Protocol(msg))])
                && (ok && Finished() ==> out == [Data(MultiBulk(args))] && st == REST)
                && (ok && !Finished() ==> out == [] && Value() == st)
                && (!ok ==> st == REST)
    {
      ok, panicked := true, false;
      var line := msg[..|msg| - 2];
      if |line| == 0 {
        panicked := true;
        return;
      }
      if line[0] == DOLLAR {
        match ParseInt(line[1..])
        case None => ok := false;
        case Some(n) =>
          bulkLen := n;
          if bulkLen <= 0 {
            args := args + [[]];
            bulkLen := 0;
          }
      } else {
        args := args + [line];
      }
    }
  }

  /** The part of `parse0` that handles a message outside an array. */
  method HandleHeader(state: ReadState, msg: Bytes) returns (sent: seq<Payload>, panicked: bool)
    requires state.Value() == REST && EndsLine(msg)
    modifies state
    ensures match OnHeader(REST, msg)
            case Abort => panicked && sent == []
            case Continue(out, st) => !panicked && sent == out && state.Value() == st
  {
    sent, panicked := [], false;
    assert |msg| > 2 ==> msg[1..|msg| - 2] == msg[..|msg| - 2][1..];
    if msg[0] == STAR {
      var ok := state.ParseMultiBulkHeader(msg);
      if !ok {
        sent := [Malformed(ArrayHeader(msg))];
        state.Reset();
      } else if state.expectedArgsCount == 0 {
        sent := [Data(EmptyMultiBulk)];
        state.Reset();
      }
    } else if msg[0] == DOLLAR {
      var ok := state.ParseBulkHeader(msg);
      if !ok {
        sent := [Malformed(Protocol(msg))];
        state.Reset();
      } else if state.bulkLen == -1 {
        sent := [Data(NullBulk)];
        state.Reset();
      }
    } else {
      var line := msg[..|msg| - 2];
      if |line| == 0 {
        panicked := true;
        return;
      }
      sent := [ParseSingleLineReply(line, msg)];
      state.Reset();
    }
  }

  /** The part of `parse0` that handles a message inside an array. */
  method HandleBody(state: ReadState, msg: Bytes) returns (sent: seq<Payload>, panicked: bool)
    requires Good(state.Value()) && state.readingMultiLine && state.bulkLen == 0 && EndsLine(msg)
    modifies state
    ensures match OnBody(old(state.Value()), msg)
            case Abort => panicked && sent == []
            case Continue(out, st) => !panicked && sent == out && state.Value() == st
  {
    sent := [];
    var ok;
    ok, panicked := state.ReadBody(msg);
    if panicked {
      return;
    }
    if !ok {
      sent := [Malformed(Protocol(msg))];
      state.Reset();
    } else if state.Finished() {
      if state.msgType == STAR {
        sent := [Data(MultiBulk(state.args))];
      } else if state.msgType == DOLLAR {
        sent := [Data(MultiBulk(state.args))];
      }
      state.Reset();
    }
  }

  lemma ThenThen(a: seq<Payload>, b: seq<Payload>, p: Progress)
    ensures Then(a, Then(b, p)) == Then(a + b, p)
  {
    Assoc(a, b, p.out);
  }

  /** The parser's goroutine on a stream that ends: every payload it sends, and whether it closed
      the channel. */
  method Parse0(reader: BufReader) returns (r: Outcome)
    modifies reader
    ensures r == Parse(old(reader.rest))
  {
    hide OnHeader, OnBody, NextLine;
    var state := new ReadState();
    var out: seq<Payload> := [];
    while true
      invariant fresh(state) && Good(state.Value())
      invariant Feed(REST, old(reader.rest)) == Then(out, Feed(state.Value(), reader.rest))
      decreases |reader.rest|
    {
      ghost var st, input := state.Value(), reader.rest;
      var read := state.ReadLine(reader);
      var sent: seq<Payload> := [];
      match read {
        case Panicked =>
          return Stuck(out);
        case Ended(unexpected) =>
          return Closed(out + [IoError(unexpected)]);
        case Failed(error) =>
          sent := [Malformed(error)];
          state.Reset();
        case Got(msg) =>
          var panicked;
          if !state.readingMultiLine {
            sent, panicked := HandleHeader(state, msg);
          } else {
            sent, panicked := HandleBody(state, msg);
          }
          if panicked {
            return Stuck(out);
          }
      }
      ThenThen(out, sent, Feed(state.Value(), reader.rest));
      out := out + sent;
    }
  }
}
