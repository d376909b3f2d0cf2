/** What every single line on a connection leads to, well-formed or not: the messages one by one, where
    `ParserLaws` speaks of whole commands. */
module LineLaws {
  import opened ByteStrings
  import opened Strconv
  import opened Replies
  import opened Parser
  import opened ParserLaws
  import opened ReplyLaws

  /** A line feed with nothing in front of it is an index panic, between messages and inside an array. */
  lemma LoneLineFeedKills(st: State, rest: Bytes)
    requires Good(st) && st.bulkLen == 0
    ensures Feed(st, [LF] + rest) == Dead([])
  {
    ReadToFirst([], LF, rest);
    assert [] + ([LF] + rest) == [LF] + rest;
  }

  /** A line feed without a carriage return is an error, and the parser starts afresh behind it. */
  lemma LineWithoutReturn(st: State, line: Bytes, rest: Bytes)
    requires Good(st) && st.bulkLen == 0
    requires line != [] && LF !in line && line[|line| - 1] != CR
    ensures Feed(st, line + [LF] + rest) == Then([Malformed(LineEnd)], Feed(REST, rest))
  {
    ReadToFirst(line, LF, rest);
    assert line + [LF] + rest == line + ([LF] + rest);
    assert NextLine(0, line + [LF] + rest) == BadEnd(LineEnd, rest);
    hide OnMessage, ReadTo;
  }

  /** So is a body of the announced length without a line end behind it. */
  lemma BodyWithoutEnd(st: State, body: Bytes, rest: Bytes)
    requires Good(st) && 1 <= st.bulkLen <= MAX_ARG && |body| == st.bulkLen + 2 && !EndsLine(body)
    ensures Feed(st, body + rest) == Then([Malformed(BulkEnd)], Feed(REST, rest))
  {
    var input := body + rest;
    assert input[..|body|] == body && input[|body|..] == rest;
    assert NextLine(st.bulkLen, input) == BadEnd(BulkEnd, rest);
    hide OnMessage;
  }

  /** A line that begins like no reply at all is a payload without data, and not a command. */
  lemma OtherLine(line: Bytes, rest: Bytes)
    requires line != [] && LF !in line
    requires line[0] != STAR && line[0] != DOLLAR && line[0] != PLUS && line[0] != MINUS && line[0] != COLON
    ensures Feed(REST, line + CRLF + rest) == Then([NoData], Feed(REST, rest))
  {
    hide Feed;
    LineFeed(REST, line, rest);
    assert (line + CRLF)[..|line|] == line;
  }

  lemma PrefixedLine(st: State, prefix: byte, text: Bytes, rest: Bytes)
    requires Good(st) && st.bulkLen == 0 && prefix != LF && LF !in text
    ensures var line := [prefix] + text;
      && Feed(st, line + CRLF + rest) == Proceed(OnMessage(st, line + CRLF), rest)
      && (line + CRLF)[..|line|] == line && line[1..] == text
  {
    hide Feed;
    LineFeed(st, [prefix] + text, rest);
  }

  /** An integer line: any decimal spelling of a 64-bit integer, and nothing else. */
  lemma IntegerLineExactly(text: Bytes, rest: Bytes)
    requires LF !in text
    ensures var p, line := Feed(REST, [COLON] + text + CRLF + rest), [COLON] + text + CRLF;
      && (forall n | Spells(text, n) && IsInt64(n) :: p == Then([Data(Int(n))], Feed(REST, rest)))
      && ((forall n | IsInt64(n) :: !Spells(text, n)) ==> p == Then([Malformed(IntegerLine(line))], Feed(REST, rest)))
  {
    hide Feed, ParseInt, Spells, IsInt64;
    PrefixedLine(REST, COLON, text, rest);
    forall n ensures ParseInt(text) == Some(n) <==> Spells(text, n) && IsInt64(n) {
      ParseIntExactly(text, n);
    }
  }

  /** An array header: any decimal spelling of a 32-bit count. */
  lemma ArrayHeaderExactly(text: Bytes, rest: Bytes)
    requires LF !in text
    ensures var p, line := Feed(REST, [STAR] + text + CRLF + rest), [STAR] + text + CRLF;
      && (forall n: nat | SpellsUnsigned(text, n) && n <= UINT32_MAX ::
            p == if n == 0 then Then([Data(EmptyMultiBulk)], Feed(REST, rest)) else Feed(AfterHeader(n), rest))
      && ((forall n: nat | n <= UINT32_MAX :: !SpellsUnsigned(text, n)) ==>
            p == Then([Malformed(ArrayHeader(line))], Feed(REST, rest)))
  {
    hide Feed, ParseUint, SpellsUnsigned;
    PrefixedLine(REST, STAR, text, rest);
    forall n: nat ensures ParseUint(text, UINT32_MAX) == Some(n) <==> SpellsUnsigned(text, n) && n <= UINT32_MAX {
      ParseUintExactly(text, UINT32_MAX, n);
      if 0 < n <= UINT32_MAX {
        ThenNothing(Feed(AfterHeader(n), rest));
      }
    }
  }

  /** A bulk header: a positive length, or -1. */
  lemma BulkHeaderExactly(text: Bytes, rest: Bytes)
    requires LF !in text
    ensures var p, line := Feed(REST, [DOLLAR] + text + CRLF + rest), [DOLLAR] + text + CRLF;
      && (forall n | Spells(text, n) && IsInt64(n) ::
            p == if n > 0 then Feed(AfterLength(n), rest)
                 else if n == -1 then Then([Data(NullBulk)], Feed(REST, rest))
                 else Then([Malformed(Protocol(line))], Feed(REST, rest)))
      && ((forall n | IsInt64(n) :: !Spells(text, n)) ==> p == Then([Malformed(Protocol(line))], Feed(REST, rest)))
  {
    hide Feed, ParseInt, Spells;
    PrefixedLine(REST, DOLLAR, text, rest);
    forall n ensures ParseInt(text) == Some(n) <==> Spells(text, n) && IsInt64(n) {
      ParseIntExactly(text, n);
      if 0 < n <= INT64_MAX {
        ThenNothing(Feed(AfterLength(n), rest));
      }
    }
  }

  /** A length inside an array: a positive one announces an argument, any other is an empty argument. */
  lemma LengthLineExactly(st: State, text: Bytes, rest: Bytes)
    requires Good(st) && st.reading && st.bulkLen == 0 && LF !in text
    ensures var p, line := Feed(st, [DOLLAR] + text + CRLF + rest), [DOLLAR] + text + CRLF;
      && (forall n | Spells(text, n) && IsInt64(n) ::
            p == if n > 0 then Feed(st.(bulkLen := n), rest) else Proceed(AddArg(st, []), rest))
      && ((forall n | IsInt64(n) :: !Spells(text, n)) ==> p == Then([Malformed(Protocol(line))], Feed(REST, rest)))
  {
    hide Feed, ParseInt, Spells;
    PrefixedLine(st, DOLLAR, text, rest);
    assert st.(bulkLen := 0) == st;
    forall n ensures ParseInt(text) == Some(n) <==> Spells(text, n) && IsInt64(n) {
      ParseIntExactly(text, n);
      if 0 < n <= INT64_MAX {
        ThenNothing(Feed(st.(bulkLen := n), rest));
      }
    }
  }

  /** Any other line inside an array is an argument as it stands, no length needed. */
  lemma LineIsArgument(st: State, line: Bytes, rest: Bytes)
    requires Good(st) && st.reading && st.bulkLen == 0
    requires line != [] && LF !in line && line[0] != DOLLAR
    ensures Feed(st, line + CRLF + rest) ==
            if |st.args| + 1 == st.expected then Then([Data(MultiBulk(st.args + [line]))], Feed(REST, rest))
            else Feed(st.(args := st.args + [line]), rest)
  {
    hide Feed;
    LineFeed(st, line, rest);
    assert (line + CRLF)[..|line|] == line;
    assert st.(bulkLen := 0) == st;
    if |st.args| + 1 < st.expected {
      ThenNothing(Feed(st.(args := st.args + [line]), rest));
    }
  }

  /** Also when it came as a body of an announced length: an argument that starts with a dollar sign is
      taken for a length line. */
  lemma DollarBodyIsLengthLine(st: State, text: Bytes, rest: Bytes)
    requires Good(st) && st.reading && st.bulkLen == |text| + 1 <= MAX_ARG && LF !in text
    ensures Feed(st, [DOLLAR] + text + CRLF + rest) == Feed(st.(bulkLen := 0), [DOLLAR] + text + CRLF + rest)
  {
    hide Feed, OnBody;
    BodyFeed(st, [DOLLAR] + text, rest);
    PrefixedLine(st.(bulkLen := 0), DOLLAR, text, rest);
  }

  /** A stream that ends between commands ends in EOF. */
  lemma EndsCleanly(cmds: seq<CmdLine>)
    requires forall i | 0 <= i < |cmds| :: WireSafe(cmds[i])
    ensures Parse(PrintAll(cmds)) == Closed(Sent(cmds) + [IoError(false)])
  {
    hide Feed, PrintAll;
    WholeStream(cmds);
  }

  /** One that ends in a body ends in an unexpected EOF; right in front of it, in EOF again. */
  lemma EndsInBody(cmds: seq<CmdLine>, n: int, part: Bytes)
    requires forall i | 0 <= i < |cmds| :: WireSafe(cmds[i])
    requires 1 <= n <= MAX_ARG && |part| < n + 2
    ensures Parse(PrintAll(cmds) + ([DOLLAR] + Itoa(n) + CRLF + part))
            == Closed(Sent(cmds) + [IoError(part != [])])
  {
    hide Feed, PrintAll, Itoa, WireSafe, Sent;
    StreamRoundTrip(cmds, [DOLLAR] + Itoa(n) + CRLF + part);
    BulkHeader(n, part);
    WaitsForBody(AfterLength(n), part);
    assert Sent(cmds) + [] == Sent(cmds);
  }

  lemma WaitsForBody(st: State, part: Bytes)
    requires Good(st) && 1 <= st.bulkLen <= MAX_ARG && |part| < st.bulkLen + 2
    ensures Feed(st, part) == Waiting([], st, part)
  {
  }

  /** After a panic the channel is never closed: whoever ranges over it waits for ever. */
  lemma BlankLineHangs(cmds: seq<CmdLine>, rest: Bytes)
    requires forall i | 0 <= i < |cmds| :: WireSafe(cmds[i])
    ensures Parse(PrintAll(cmds) + (CRLF + rest)) == Stuck(Sent(cmds))
  {
    hide Feed, PrintAll, WireSafe, Sent;
    StreamRoundTrip(cmds, CRLF + rest);
    BlankLineKills(REST, rest);
    assert Sent(cmds) + [] == Sent(cmds);
  }
}
