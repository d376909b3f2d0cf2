/** `CompilePattern` of lib/wildcard/wildcard.go: one pass over the characters with an escape flag
    and an open set. */
module PatternCompiler {
  import opened ByteStrings
  import opened Wildcard

  const BACKSLASH: byte := 92
  const QUESTION: byte := 63
  const OPEN: byte := 91
  const CLOSE: byte := 93
  const CARET: byte := 94
  const RUNE_ERROR: int := 0xFFFD

  predicate InRange(s: Bytes, i: int, lo: byte, hi: byte) {
    0 <= i < |s| && lo <= s[i] <= hi
  }

  predicate IsTail(s: Bytes, i: int) {
    InRange(s, i, 0x80, 0xBF)
  }

  /** How Go's `range` over a string reads its first character: the code point, and how many bytes
      it takes. Anything that is not UTF-8 is one byte of RUNE_ERROR. */
  function FirstRune(s: Bytes): (r: (int, nat))
    requires s != []
    ensures 1 <= r.1 <= |s|
    ensures 0 <= r.0
  {
    var b0 := s[0] as int;
    if b0 < 0x80 then (b0, 1)
    else if 0xC2 <= b0 <= 0xDF && IsTail(s, 1) then ((b0 - 0xC0) * 64 + Tail(s, 1), 2)
    else if 0xE0 <= b0 <= 0xEF && IsTail(s, 1) && IsTail(s, 2)
            && (b0 == 0xE0 ==> s[1] >= 0xA0) && (b0 == 0xED ==> s[1] <= 0x9F) then
      ((b0 - 0xE0) * 4096 + Tail(s, 1) * 64 + Tail(s, 2), 3)
    else if 0xF0 <= b0 <= 0xF4 && IsTail(s, 1) && IsTail(s, 2) && IsTail(s, 3)
            && (b0 == 0xF0 ==> s[1] >= 0x90) && (b0 == 0xF4 ==> s[1] <= 0x8F) then
      ((b0 - 0xF0) * 262144 + Tail(s, 1) * 4096 + Tail(s, 2) * 64 + Tail(s, 3), 4)
    else (RUNE_ERROR, 1)
  }

  function Tail(s: Bytes, i: nat): (t: int)
    requires IsTail(s, i)
    ensures 0 <= t < 64
  {
    s[i] as int - 0x80
  }

  function Runes(s: Bytes): seq<int>
    decreases |s|
  {
    if s == [] then [] else [FirstRune(s).0] + Runes(s[FirstRune(s).1..])
  }

  /** The code points UTF-8 encodes: not the surrogates. */
  predicate Scalar(rune: int) {
    0 <= rune < 0xD800 || 0xE000 <= rune <= 0x10FFFF
  }

  /** UTF-8. */
  function EncodeRune(rune: int): Bytes
    requires Scalar(rune)
  {
    if rune < 0x80 then [rune as byte]
    else if rune < 0x800 then [(0xC0 + rune / 64) as byte, (0x80 + rune % 64) as byte]
    else if rune < 0x10000 then
      [(0xE0 + rune / 4096) as byte, (0x80 + rune / 64 % 64) as byte, (0x80 + rune % 64) as byte]
    else
      [(0xF0 + rune / 262144) as byte, (0x80 + rune / 4096 % 64) as byte,
       (0x80 + rune / 64 % 64) as byte, (0x80 + rune % 64) as byte]
  }

  /** Ranging over a string reads every character that is encoded in it, whatever follows. */
  lemma RangeReadsUtf8(rune: int, rest: Bytes)
    requires Scalar(rune)
    ensures Runes(EncodeRune(rune) + rest) == [rune] + Runes(rest)
  {
    var s := EncodeRune(rune) + rest;
    FirstIsEncoded(rune, rest);
    hide FirstRune, EncodeRune;
    assert s[|EncodeRune(rune)|..] == rest;
  }

  lemma FirstIsEncoded(rune: int, rest: Bytes)
    requires Scalar(rune)
    ensures FirstRune(EncodeRune(rune) + rest) == (rune, |EncodeRune(rune)|)
  {
    if rune < 0x800 {
      assert rune < 0x80 || IsTail(EncodeRune(rune) + rest, 1);
    } else if rune < 0x10000 {
      ThreeBytes(rune, rest);
    } else {
      FourBytes(rune, rest);
    }
  }

  lemma Digits64(n: nat)
    ensures n == n / 4096 * 4096 + n / 64 % 64 * 64 + n % 64
    ensures n / 4096 == n / 262144 * 64 + n / 4096 % 64
  {
    assert n / 4096 == n / 64 / 64;
    assert n / 262144 == n / 4096 / 64;
  }

  lemma ThreeBytes(rune: int, rest: Bytes)
    requires 0x800 <= rune < 0xD800 || 0xE000 <= rune < 0x10000
    ensures FirstRune(EncodeRune(rune) + rest) == (rune, 3)
  {
    var s := EncodeRune(rune) + rest;
    Digits64(rune);
    var q, t := rune / 64, rune % 64;
    assert s[0] as int == 0xE0 + rune / 4096 && s[1] as int == 0x80 + q % 64 && s[2] as int == 0x80 + t;
    hide EncodeRune;
    assert rune / 4096 == 0 ==> q % 64 >= 32;
    assert rune / 4096 == 13 ==> q % 64 < 32;
    assert IsTail(s, 1) && IsTail(s, 2);
    assert Tail(s, 1) == q % 64 && Tail(s, 2) == t;
  }

  lemma FourBytes(rune: int, rest: Bytes)
    requires 0x10000 <= rune <= 0x10FFFF
    ensures FirstRune(EncodeRune(rune) + rest) == (rune, 4)
  {
    var s := EncodeRune(rune) + rest;
    Digits64(rune);
    var p, q, t := rune / 4096, rune / 64, rune % 64;
    assert s[0] as int == 0xF0 + rune / 262144 && s[1] as int == 0x80 + p % 64;
    assert s[2] as int == 0x80 + q % 64 && s[3] as int == 0x80 + t;
    hide EncodeRune;
    assert rune / 262144 == 0 ==> p % 64 >= 16;
    assert rune / 262144 == 4 ==> p % 64 < 16;
    assert IsTail(s, 1) && IsTail(s, 2) && IsTail(s, 3);
    assert Tail(s, 1) == p % 64 && Tail(s, 2) == q % 64 && Tail(s, 3) == t;
  }

  /** A character of `a + b` begins in `a` and ends in `b`. */
  ghost predicate Crosses(a: Bytes, b: Bytes) {
    exists i :: CrossesAt(a, b, i)
  }

  predicate CrossesAt(a: Bytes, b: Bytes, i: int) {
    0 <= i < |a| && FirstRune(a[i..] + b).1 > |a| - i
  }

  /** The first byte of a longer character is no continuation byte, and all its others are. */
  lemma LeadAndTails(s: Bytes, j: nat)
    requires s != [] && 1 <= j < FirstRune(s).1
    ensures !IsTail(s, 0) && IsTail(s, j)
  {
  }

  /** A character that ends within `a` is read from `a` alone. */
  lemma ReadsWithin(a: Bytes, b: Bytes)
    requires a != [] && FirstRune(a + b).1 <= |a|
    ensures FirstRune(a) == FirstRune(a + b)
  {
    var s := a + b;
    assert forall i | 0 <= i < |a| :: a[i] == s[i];
  }

  /** Every continuation byte in front is read as a character of its own. */
  lemma {:induction false} StrayTails(b: Bytes, n: nat)
    requires n <= |b| && forall i | 0 <= i < n :: IsTail(b, i)
    ensures |Runes(b)| == n + |Runes(b[n..])|
    decreases n
  {
    if n == 0 {
      assert b[0..] == b;
    } else {
      StrayTail(b);
      hide FirstRune;
      var tail := b[1..];
      forall i | 0 <= i < n - 1 ensures IsTail(tail, i) {
        assert IsTail(b, i + 1);
      }
      StrayTails(tail, n - 1);
      assert tail[n - 1..] == b[n..];
    }
  }

  lemma StrayTail(b: Bytes)
    requires IsTail(b, 0)
    ensures FirstRune(b) == (RUNE_ERROR, 1)
  {
  }

  /** Ranging over `a + b` reads what ranging over `a` and then over `b` does exactly when no character
      crosses from one into the other. */
  lemma {:induction false} RunesConcatExactly(a: Bytes, b: Bytes)
    ensures Runes(a + b) == Runes(a) + Runes(b) <==> !Crosses(a, b)
    decreases |a|
  {
    hide FirstRune, Runes;
    if a == [] {
      assert a + b == b;
      NoRunes();
    } else {
      var s := a + b;
      var w := FirstRune(s).1;
      assert a[0..] == a;
      if w <= |a| {
        ReadsWithin(a, b);
        RunesFirst(s);
        RunesFirst(a);
        assert s[w..] == a[w..] + b;
        RunesConcatExactly(a[w..], b);
        CrossesLater(a, b);
        var first, rest := [FirstRune(a).0], Runes(a[w..]);
        Assoc(first, rest, Runes(b));
        assert (first + Runes(s[w..]))[1..] == Runes(s[w..]);
        assert (first + (rest + Runes(b)))[1..] == rest + Runes(b);
      } else {
        assert CrossesAt(a, b, 0);
        CrossingIsShorter(a, b);
      }
    }
  }

  lemma NoRunes()
    ensures Runes([]) == []
  {
  }

  lemma RunesFirst(s: Bytes)
    requires s != []
    ensures Runes(s) == [FirstRune(s).0] + Runes(s[FirstRune(s).1..])
  {
    hide FirstRune;
  }

  lemma CrossesBehind(a: Bytes, b: Bytes, i: int)
    requires a != [] && FirstRune(a + b).1 <= |a| && CrossesAt(a, b, i)
    ensures i >= FirstRune(a + b).1
  {
    hide FirstRune;
    assert a[0..] == a;
    var s, late := a + b, a[i..] + b;
    assert late[0] == s[i];
    if 0 < i < FirstRune(s).1 {
      LeadAndTails(late, 1);
      LeadAndTails(s, i);
    }
  }

  /** A crossing after the first character is one of the rest. */
  lemma CrossesLater(a: Bytes, b: Bytes)
    requires a != [] && FirstRune(a + b).1 <= |a|
    ensures Crosses(a, b) <==> Crosses(a[FirstRune(a + b).1..], b)
  {
    hide FirstRune;
    var w := FirstRune(a + b).1;
    var tail := a[w..];
    if Crosses(a, b) {
      var i :| CrossesAt(a, b, i);
      CrossesBehind(a, b, i);
      assert tail[i - w..] == a[i..];
      assert CrossesAt(tail, b, i - w);
    }
    if Crosses(tail, b) {
      var i :| CrossesAt(tail, b, i);
      assert tail[i..] == a[i + w..];
      assert CrossesAt(a, b, i + w);
    }
  }

  /** Read apart, the bytes of a crossing character are several. */
  lemma CrossingIsShorter(a: Bytes, b: Bytes)
    requires a != [] && FirstRune(a + b).1 > |a|
    ensures |Runes(a + b)| < |Runes(a) + Runes(b)|
  {
    hide FirstRune, Runes;
    var s, n := a + b, FirstRune(a + b).1 - |a|;
    RunesFirst(s);
    RunesFirst(a);
    forall i | 0 <= i < n ensures IsTail(b, i) {
      LeadAndTails(s, |a| + i);
      assert s[|a| + i] == b[i];
    }
    StrayTails(b, n);
    assert s[|a| + n..] == b[n..];
  }

  /** Nothing crosses into a string that does not begin with a continuation byte. */
  lemma NoCrossingInto(a: Bytes, b: Bytes)
    requires !IsTail(b, 0)
    ensures !Crosses(a, b)
  {
    hide FirstRune;
    forall i ensures !CrossesAt(a, b, i) {
      if 0 <= i < |a| && b != [] {
        var s, j := a[i..] + b, |a| - i;
        assert s[j] == b[0];
        if CrossesAt(a, b, i) {
          LeadAndTails(s, j);
        }
      }
    }
  }

  function Encode(runes: seq<int>): Bytes
    requires forall i | 0 <= i < |runes| :: Scalar(runes[i])
  {
    if runes == [] then [] else EncodeRune(runes[0]) + Encode(runes[1..])
  }

  /** Ranging over encoded characters gives them back, whatever follows: nothing crosses out of them. */
  lemma {:induction false} EncodedIsRead(runes: seq<int>, rest: Bytes)
    requires forall i | 0 <= i < |runes| :: Scalar(runes[i])
    ensures Runes(Encode(runes) + rest) == runes + Runes(rest)
    decreases |runes|
  {
    hide EncodeRune, Runes;
    if runes == [] {
      assert [] + rest == rest;
    } else {
      var tail := Encode(runes[1..]);
      Assoc(EncodeRune(runes[0]), tail, rest);
      RangeReadsUtf8(runes[0], tail + rest);
      EncodedIsRead(runes[1..], rest);
      assert runes == [runes[0]] + runes[1..];
      Assoc([runes[0]], runes[1..], Runes(rest));
    }
  }

  lemma NoCrossingOutOf(runes: seq<int>, b: Bytes)
    requires forall i | 0 <= i < |runes| :: Scalar(runes[i])
    ensures Runes(Encode(runes)) == runes && !Crosses(Encode(runes), b)
  {
    hide FirstRune, Runes, Encode;
    var a := Encode(runes);
    EncodedIsRead(runes, b);
    EncodedIsRead(runes, []);
    NoRunes();
    assert a + [] == a && runes + [] == runes;
    RunesConcatExactly(a, b);
  }

  /** The compiler's variables; `inSet` and `set` in one. */
  datatype Compiler = Compiler(items: seq<Item>, escape: bool, open: Option<set<byte>>)

  const START := Compiler([], false, None)

  /** The item a closed bracket becomes. */
  function Bracket(members: set<byte>): Item {
    if CARET in members then Neg(members - {MINUS, CARET})
    else if MINUS in members then Range(members - {MINUS})
    else Set(members)
  }

  /** One character. The code point is cut down to its low byte. */
  function Step(c: Compiler, rune: int): Compiler {
    var b := (rune % 256) as byte;
    if c.escape then c.(items := c.items + [Normal(b)], escape := false)
    else if b == STAR then c.(items := c.items + [All])
    else if b == QUESTION then c.(items := c.items + [Any])
    else if b == BACKSLASH then c.(escape := true)
    else if b == OPEN && c.open.None? then c.(open := Some({}))
    else if b == CLOSE && c.open.Some? then c.(items := c.items + [Bracket(c.open.value)], open := None)
    else if c.open.Some? then c.(open := Some(c.open.value + {b}))
    else c.(items := c.items + [Normal(b)])
  }

  function Steps(c: Compiler, src: seq<int>): Compiler
    decreases |src|
  {
    if src == [] then c else Steps(Step(c, src[0]), src[1..])
  }

  function Compile(src: Bytes): seq<Item> {
    Steps(START, Runes(src)).items
  }

  method CompilePattern(src: Bytes) returns (items: seq<Item>)
    ensures items == Compile(src)
  {
    items := [];
    var escape, inSet := false, false;
    var members: set<byte> := {};
    var left := src;
    while left != []
      invariant Steps(START, Runes(src)) ==
                Steps(Compiler(items, escape, if inSet then Some(members) else None), Runes(left))
      decreases |left|
    {
      var (rune, width) := FirstRune(left);
      assert Runes(left)[1..] == Runes(left[width..]);
      var c := (rune % 256) as byte;
      if escape {
        items := items + [Normal(c)];
        escape := false;
      } else if c == STAR {
        items := items + [All];
      } else if c == QUESTION {
        items := items + [Any];
      } else if c == BACKSLASH {
        escape := true;
      } else if c == OPEN {
        if !inSet {
          inSet := true;
          members := {};
        } else {
          members := members + {c};
        }
      } else if c == CLOSE {
        if inSet {
          inSet := false;
          ghost var bracket := Bracket(members);
          var ranged, negated := MINUS in members, CARET in members;
          if ranged {
            members := members - {MINUS};
          }
          if negated {
            members := members - {CARET};
          }
          var item := if negated then Neg(members) else if ranged then Range(members) else Set(members);
          assert item == bracket;
          items := items + [item];
        } else {
          items := items + [Normal(c)];
        }
      } else {
        if inSet {
          members := members + {c};
        } else {
          items := items + [Normal(c)];
        }
      }
      left := left[width..];
    }
  }

  lemma {:induction false} StepsConcat(c: Compiler, a: seq<int>, b: seq<int>)
    ensures Steps(c, a + b) == Steps(Steps(c, a), b)
    decreases |a|
  {
    if a == [] {
      assert a + b == b;
    } else {
      assert (a + b)[1..] == a[1..] + b;
      StepsConcat(Step(c, a[0]), a[1..], b);
    }
  }

  /** What was compiled before only stands in front. */
  lemma {:induction false} StepsPrefix(c: Compiler, src: seq<int>)
    ensures Steps(c, src) == var d := Steps(c.(items := []), src); d.(items := c.items + d.items)
    decreases |src|
  {
    if src == [] {
      assert c.items + [] == c.items;
    } else {
      var d, e := Step(c, src[0]), Step(c.(items := []), src[0]);
      assert d.items == c.items + e.items;
      StepsPrefix(d, src[1..]);
      StepsPrefix(e, src[1..]);
      Assoc(c.items, e.items, Steps(e.(items := []), src[1..]).items);
    }
  }

  predicate Closed(src: seq<int>) {
    var c := Steps(START, src); !c.escape && c.open.None?
  }

  lemma StepsInParts(a: seq<int>, b: seq<int>)
    requires Closed(a)
    ensures Steps(START, a + b).items == Steps(START, a).items + Steps(START, b).items
  {
    StepsConcat(START, a, b);
    StepsPrefix(Steps(START, a), b);
  }

  /** Compiling in two parts, when the first ends outside an escape and outside a set, and no character
      crosses into the second. */
  lemma CompilesInParts(a: Bytes, b: Bytes)
    requires Closed(Runes(a)) && !Crosses(a, b)
    ensures Compile(a + b) == Compile(a) + Compile(b)
  {
    hide Closed, Crosses, Runes, Steps;
    RunesConcatExactly(a, b);
    StepsInParts(Runes(a), Runes(b));
  }

  /** Such a pattern matches the strings that can be cut into a part for each. */
  lemma ConcatenatedPattern(a: Bytes, b: Bytes, s: Bytes)
    requires Closed(Runes(a)) && !Crosses(a, b)
    ensures Match(Compile(a + b), s) <==> exists k :: SplitMatches(Compile(a), Compile(b), s, k)
  {
    hide Closed, Crosses, Runes, Compile;
    CompilesInParts(a, b);
    SplitLaw(Compile(a), Compile(b), s);
  }

  /** A backslash before every byte. */
  function Quote(s: Bytes): Bytes {
    if s == [] then [] else [BACKSLASH, s[0]] + Quote(s[1..])
  }

  /** What is left of a byte quoted this way: one above 127 is not a character of its own. */
  function Lossy(s: Bytes): (r: Bytes)
    ensures |r| == |s|
    ensures forall i | 0 <= i < |s| :: r[i] == if s[i] < 128 then s[i] else 0xFD
  {
    seq(|s|, i requires 0 <= i < |s| => if s[i] < 128 then s[i] else 0xFD)
  }

  function Literal(s: Bytes): seq<Item> {
    seq(|s|, i requires 0 <= i < |s| => Normal(s[i]))
  }

  lemma {:induction false} QuoteCompiles(s: Bytes)
    ensures Closed(Runes(Quote(s))) && Compile(Quote(s)) == Literal(Lossy(s))
  {
    hide FirstRune, Step;
    if s == [] {
      assert Literal(Lossy(s)) == [];
    } else {
      var c := START.(items := [Normal(Lossy(s)[0])]);
      QuotedByte(s);
      QuoteCompiles(s[1..]);
      StepsPrefix(c, Runes(Quote(s[1..])));
      assert Literal(Lossy(s)) == c.items + Literal(Lossy(s[1..]));
    }
  }

  function QuotedRune(b: byte): int {
    if b < 128 then b as int else RUNE_ERROR
  }

  /** A backslash and a byte compile to that byte's character, or to what is left of it. */
  lemma QuotedByte(s: Bytes)
    requires s != []
    ensures Steps(START, Runes(Quote(s))) == Steps(START.(items := [Normal(Lossy(s)[0])]), Runes(Quote(s[1..])))
  {
    hide Runes, FirstRune, Quote;
    var rune, tail := QuotedRune(s[0]), Runes(Quote(s[1..]));
    QuotedRunes(s);
    var escaped := START.(escape := true);
    assert Step(START, BACKSLASH as int) == escaped;
    assert Step(escaped, rune) == START.(items := [Normal(Lossy(s)[0])]);
    hide Step;
    StepsCons(START, BACKSLASH as int, [rune] + tail);
    StepsCons(escaped, rune, tail);
    assert [BACKSLASH as int, rune] + tail == [BACKSLASH as int] + ([rune] + tail);
  }

  lemma StepsCons(c: Compiler, rune: int, tail: seq<int>)
    ensures Steps(c, [rune] + tail) == Steps(Step(c, rune), tail)
  {
    hide Step;
    assert ([rune] + tail)[1..] == tail;
  }

  lemma QuotedRunes(s: Bytes)
    requires s != []
    ensures Runes(Quote(s)) == [BACKSLASH as int, QuotedRune(s[0])] + Runes(Quote(s[1..]))
  {
    hide Runes, QuotedRune;
    var q, tail := Quote(s), Quote(s[1..]);
    assert tail == [] || tail[0] == BACKSLASH;
    assert q == [BACKSLASH] + ([s[0]] + tail);
    hide Quote;
    RunesCons(BACKSLASH, [s[0]] + tail);
    RunesCons(s[0], tail);
    assert QuotedRune(BACKSLASH) == BACKSLASH as int by {
      BackslashIsAscii();
    }
    assert [BACKSLASH as int, QuotedRune(s[0])] == [BACKSLASH as int] + [QuotedRune(s[0])];
    Assoc([BACKSLASH as int], [QuotedRune(s[0])], Runes(tail));
  }

  lemma BackslashIsAscii()
    ensures QuotedRune(BACKSLASH) == BACKSLASH as int
  {
  }

  /** A byte in front of an ASCII byte, or of nothing, is a character of its own or no character. */
  lemma RunesCons(b: byte, tail: Bytes)
    requires b < 128 || tail == [] || tail[0] < 128
    ensures Runes([b] + tail) == [QuotedRune(b)] + Runes(tail)
  {
    FirstOfTwo(b, tail);
    hide FirstRune;
    assert ([b] + tail)[1..] == tail;
  }

  lemma FirstOfTwo(b: byte, tail: Bytes)
    requires b < 128 || tail == [] || tail[0] < 128
    ensures FirstRune([b] + tail) == (QuotedRune(b), 1)
  {
  }

  lemma {:induction false} LiteralMatches(s: Bytes, t: Bytes)
    ensures Match(Literal(s), t) <==> s == t
    decreases |s|
  {
    if s != [] {
      var n, m := |s| - 1, |t| - 1;
      assert Literal(s)[..n] == Literal(s[..n]);
      assert s == s[..n] + [s[n]];
      if t != [] {
        assert t == t[..m] + [t[m]];
        LiteralMatches(s[..n], t[..m]);
      }
    }
  }

  ghost predicate MatchesOnly(items: seq<Item>, s: Bytes) {
    forall t :: Match(items, t) <==> t == s
  }

  /** No byte is lost when each is quoted: ASCII, or by chance the low byte of RUNE_ERROR. */
  predicate Quotable(s: Bytes) {
    forall i | 0 <= i < |s| :: s[i] < 128 || s[i] == 0xFD
  }

  lemma QuotedMatchesLossy(s: Bytes)
    ensures MatchesOnly(Compile(Quote(s)), Lossy(s))
  {
    hide Match, Compile, Quote;
    QuoteCompiles(s);
    forall t ensures Match(Compile(Quote(s)), t) <==> t == Lossy(s) {
      LiteralMatches(Lossy(s), t);
    }
  }

  lemma LossyIsSame(s: Bytes)
    ensures Lossy(s) == s <==> Quotable(s)
  {
    if !Quotable(s) {
      var i :| 0 <= i < |s| && !(s[i] < 128 || s[i] == 0xFD);
      assert Lossy(s)[i] != s[i];
    }
  }

  /** A fully quoted string matches itself and nothing else exactly when no byte is lost. */
  lemma QuotingExactly(s: Bytes)
    ensures MatchesOnly(Compile(Quote(s)), s) <==> Quotable(s)
  {
    hide Match, Compile, Quote, Lossy, Quotable;
    QuotedMatchesLossy(s);
    LossyIsSame(s);
    if !Quotable(s) {
      assert Match(Compile(Quote(s)), Lossy(s));
    }
  }

  /** A character that stands for itself outside brackets. */
  predicate Ordinary(b: byte) {
    b != STAR && b != QUESTION && b != BACKSLASH && b != OPEN
  }

  predicate AllOrdinary(s: Bytes) {
    forall i | 0 <= i < |s| :: Ordinary(s[i])
  }

  /** The low byte of every character: what the compiler sees of it. */
  function LowBytes(runes: seq<int>): (r: Bytes)
    ensures |r| == |runes|
  {
    seq(|runes|, i requires 0 <= i < |runes| => (runes[i] % 256) as byte)
  }

  lemma {:induction false} OrdinaryCompiles(c: Compiler, runes: seq<int>)
    requires !c.escape && c.open.None? && AllOrdinary(LowBytes(runes))
    ensures Steps(c, runes) == c.(items := c.items + Literal(LowBytes(runes)))
    decreases |runes|
  {
    var low := LowBytes(runes);
    if runes == [] {
      assert c.items + Literal(low) == c.items;
    } else {
      assert Ordinary(low[0]);
      var d := Step(c, runes[0]);
      assert d == c.(items := c.items + [Normal(low[0])]);
      assert LowBytes(runes[1..]) == low[1..];
      OrdinaryCompiles(d, runes[1..]);
      assert Literal(low) == [Normal(low[0])] + Literal(low[1..]);
      Assoc(c.items, [Normal(low[0])], Literal(low[1..]));
    }
  }

  /** Without special characters a pattern matches one string: the low bytes of its characters. */
  lemma OrdinaryMatchesLow(src: Bytes)
    requires AllOrdinary(LowBytes(Runes(src)))
    ensures MatchesOnly(Compile(src), LowBytes(Runes(src)))
  {
    hide Match, Runes, Steps;
    var low := LowBytes(Runes(src));
    OrdinaryCompiles(START, Runes(src));
    assert [] + Literal(low) == Literal(low);
    forall t ensures Match(Compile(src), t) <==> t == low {
      LiteralMatches(low, t);
    }
  }

  /** The characters are the bytes exactly when none is longer than a byte and none is lost. */
  lemma {:induction false} LowBytesAreSame(src: Bytes)
    ensures |Runes(src)| <= |src|
    ensures LowBytes(Runes(src)) == src <==> Quotable(src)
    decreases |src|
  {
    if src != [] {
      var (rune, w) := FirstRune(src);
      var rest := src[w..];
      LowBytesAreSame(rest);
      LowOfFirst(src);
      hide FirstRune;
      var low := LowBytes(Runes(src));
      assert Runes(src) == [rune] + Runes(rest);
      assert low == [low[0]] + LowBytes(Runes(rest));
      if w == 1 {
        assert src == [src[0]] + rest;
        QuotableCons(src[0], rest);
        assert low[1..] == LowBytes(Runes(rest));
      }
    }
  }

  lemma LowOfFirst(src: Bytes)
    requires src != []
    ensures var (rune, w) := FirstRune(src);
      if w == 1 then (rune % 256) as byte == src[0] <==> Quotable([src[0]]) else !Quotable(src)
  {
    assert [src[0]][0] == src[0];
  }

  lemma QuotableCons(b: byte, rest: Bytes)
    ensures Quotable([b] + rest) <==> Quotable([b]) && Quotable(rest)
  {
    var s := [b] + rest;
    assert s[0] == b && forall i | 0 <= i < |rest| :: rest[i] == s[i + 1];
    assert [b][0] == b;
    if Quotable([b]) && Quotable(rest) {
      forall i | 0 <= i < |s| ensures s[i] < 128 || s[i] == 0xFD {
        assert i > 0 ==> s[i] == rest[i - 1];
      }
    }
  }

  /** A pattern without special characters matches itself and nothing else exactly when it is ASCII,
      or 0xFD: a longer character is cut down to its low byte. */
  lemma OrdinaryExactly(src: Bytes)
    requires AllOrdinary(LowBytes(Runes(src)))
    ensures MatchesOnly(Compile(src), src) <==> Quotable(src)
  {
    hide Match, Compile, Runes, Quotable;
    OrdinaryMatchesLow(src);
    LowBytesAreSame(src);
    var low := LowBytes(Runes(src));
    if !Quotable(src) {
      assert Match(Compile(src), low) && low != src;
    }
  }

  /** An ASCII string without `*`, `?`, backslash and `[` matches itself and nothing else; a `]` outside a
      set is such a character. */
  lemma PlainTextMatchesItself(s: Bytes)
    requires AllOrdinary(s) && forall i | 0 <= i < |s| :: s[i] < 128
    ensures MatchesOnly(Compile(s), s)
  {
    hide Match, Compile, Runes;
    LowBytesAreSame(s);
    OrdinaryMatchesLow(s);
  }

  /** A star alone matches every string. */
  lemma StarMatchesAll(t: Bytes)
    ensures Match(Compile([STAR]), t)
  {
    CompileOne(STAR);
    hide Compile;
    assert Compile([STAR]) == [All];
    StarTakes(t);
  }

  lemma {:induction false} StarTakes(t: Bytes)
    ensures Match([All], t)
    decreases |t|
  {
    if t == [] {
      assert [All][..0] == [];
    } else {
      StarTakes(t[..|t| - 1]);
    }
  }

  lemma CompileOne(b: byte)
    requires b < 128
    ensures Compile([b]) == Step(START, b as int).items
  {
    hide Step, FirstRune;
    RunesCons(b, []);
    assert [b] + [] == [b];
    assert [b as int] + Runes([]) == [b as int] + [];
    StepsCons(START, b as int, []);
  }

  /** A question mark alone matches the strings of one byte. */
  lemma AnyMatchesOne(t: Bytes)
    ensures Match(Compile([QUESTION]), t) <==> |t| == 1
  {
    hide Compile, Match;
    QuestionCompiles();
    OneItem(Any, t);
  }

  lemma QuestionCompiles()
    ensures Compile([QUESTION]) == [Any]
  {
    hide Compile;
    CompileOne(QUESTION);
  }

  lemma OneItem(item: Item, t: Bytes)
    requires !item.All?
    ensures Match([item], t) <==> |t| == 1 && Takes(item, t[0])
  {
    assert [item][..0] == [];
    if |t| >= 1 {
      assert |t[..|t| - 1]| == |t| - 1;
    }
  }
}
