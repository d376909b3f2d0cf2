/** The replies of resp/reply and the bytes each is sent as. */
module Replies {
  import opened ByteStrings
  import opened Strconv

  datatype Reply =
    | Pong
    | Ok
    | NullBulk
    | EmptyMultiBulk
    | Bulk(arg: Bytes)
    | MultiBulk(args: CmdLine)
    | Status(status: Bytes)
    | Int(code: int)
    | Error(status: Bytes)
    | ArgNumError(cmd: Bytes)
    | UnknownError

  const NULL_BULK: Bytes := [DOLLAR, MINUS, 49] + CRLF   // $-1 CR LF

  /** One argument of a printed array; an empty one becomes a null bulk and a blank line. */
  function PrintArg(arg: Bytes): Bytes {
    if arg == [] then NULL_BULK + CRLF
    else [DOLLAR] + Itoa(|arg|) + CRLF + arg + CRLF
  }

  function PrintArgs(args: CmdLine): Bytes {
    if args == [] then [] else PrintArg(args[0]) + PrintArgs(args[1..])
  }

  function PrintHeader(count: nat): Bytes {
    [STAR] + Itoa(count) + CRLF
  }

  /** `MultiBulkReply.ToBytes`. */
  function Print(cmd: CmdLine): Bytes {
    PrintHeader(|cmd|) + PrintArgs(cmd)
  }

  function PrintAll(cmds: seq<CmdLine>): Bytes {
    if cmds == [] then [] else Print(cmds[0]) + PrintAll(cmds[1..])
  }

  function ToBytes(r: Reply): Bytes {
    match r
    case Pong => [PLUS] + Ascii("PONG") + CRLF
    case Ok => [PLUS] + Ascii("OK") + CRLF
    case NullBulk => NULL_BULK
    case EmptyMultiBulk => [DOLLAR, STAR, 48] + CRLF   // $*0
    case Bulk(arg) =>
      if arg == [] then [DOLLAR, MINUS, 49]   // no line end: see EmptyBulkReplyHangs
      else [DOLLAR] + Itoa(|arg|) + CRLF + arg + CRLF
    case MultiBulk(args) => Print(args)
    case Status(s) => [PLUS] + s + CRLF
    case Int(n) => [COLON] + Itoa(n) + CRLF
    case Error(s) => [MINUS] + s + CRLF
    case ArgNumError(cmd) => [MINUS] + ArgNumText(cmd) + CRLF
    case UnknownError => [MINUS] + Ascii("Err unknown") + CRLF
  }

  function ArgNumText(cmd: Bytes): Bytes {
    Ascii("ERR wrong number of arguments for '") + cmd + Ascii("'commend")
  }

  lemma {:induction false} PrintArgsSnoc(args: CmdLine, last: Bytes)
    ensures PrintArgs(args + [last]) == PrintArgs(args) + PrintArg(last)
  {
    if args == [] {
      assert (args + [last])[1..] == [];
    } else {
      assert (args + [last])[1..] == args[1..] + [last];
      PrintArgsSnoc(args[1..], last);
    }
  }

  lemma {:induction false} PrintAllConcat(a: seq<CmdLine>, b: seq<CmdLine>)
    ensures PrintAll(a + b) == PrintAll(a) + PrintAll(b)
  {
    if a == [] {
      assert a + b == b;
    } else {
      assert (a + b)[1..] == a[1..] + b;
      PrintAllConcat(a[1..], b);
    }
  }

  /** The loop of `MultiBulkReply.ToBytes`, writing into a buffer. */
  method WriteMultiBulk(args: CmdLine) returns (buf: Bytes)
    ensures buf == Print(args)
  {
    buf := [STAR] + Itoa(|args|) + CRLF;
    for i := 0 to |args|
      invariant buf == PrintHeader(|args|) + PrintArgs(args[..i])
    {
      var arg := args[i];
      ghost var written := buf;
      if |arg| == 0 {
        buf := buf + (NULL_BULK + CRLF);
      } else {
        buf := buf + ([DOLLAR] + Itoa(|arg|) + CRLF + arg + CRLF);
      }
      Extend(args, i, written, buf);
    }
    assert args[..|args|] == args;
  }

  lemma Extend(args: CmdLine, i: nat, before: Bytes, after: Bytes)
    requires i < |args|
    requires before == PrintHeader(|args|) + PrintArgs(args[..i])
    requires after == before + PrintArg(args[i])
    ensures after == PrintHeader(|args|) + PrintArgs(args[..i + 1])
  {
    hide PrintArg, PrintArgs, PrintHeader;
    assert args[..i + 1] == args[..i] + [args[i]];
    PrintArgsSnoc(args[..i], args[i]);
    Assoc(PrintHeader(|args|), PrintArgs(args[..i]), PrintArg(args[i]));
  }
}
