/** What a pattern means, read from its characters alone: a reference for lib/wildcard/wildcard.go that
    knows nothing of items, compiling or tables. */
module Globs {
  import opened ByteStrings
  import opened Wildcard
  import opened PatternCompiler

  /** Where the set that is open in front of `q` is closed: at the first `]` that is not escaped. */
  function FirstClose(q: Bytes): (i: Option<nat>)
    ensures i.Some? ==> i.value < |q| && q[i.value] == CLOSE
    decreases |q|
  {
    if q == [] then None
    else if q[0] == CLOSE then Some(0)
    else
      var n := if q[0] == BACKSLASH && |q| > 1 then 2 else 1;
      match FirstClose(q[n..])
      case None => None
      case Some(i) => Some(i + n)
  }

  /** The stars, question marks and escapes inside brackets: they do not go into the set. */
  function Between(body: Bytes): (r: Bytes)
    ensures |r| <= |body|
    decreases |body|
  {
    if body == [] then []
    else if body[0] == BACKSLASH then if |body| == 1 then [] else body[..2] + Between(body[2..])
    else if body[0] == STAR || body[0] == QUESTION then [body[0]] + Between(body[1..])
    else Between(body[1..])
  }

  /** All the others do, a second opening bracket among them. */
  function Members(body: Bytes): Bytes
    decreases |body|
  {
    if body == [] then []
    else if body[0] == BACKSLASH then if |body| == 1 then [] else Members(body[2..])
    else if body[0] == STAR || body[0] == QUESTION then Members(body[1..])
    else [body[0]] + Members(body[1..])
  }

  /** The meaning of a set, by the code's rule: a caret anywhere negates, otherwise a dash anywhere makes
      the range from the least to the greatest member, otherwise it is the set. */
  predicate InBracket(members: Bytes, c: byte) {
    var ends := set b | b in members && b != MINUS;
    if CARET in members then c == CARET || c == MINUS || c !in members
    else if MINUS in members then (exists lo | lo in ends :: lo <= c) && (exists hi | hi in ends :: c <= hi)
    else c in members
  }

  /** The string `t` is what the pattern `q` describes. A set matches one byte, after whatever the stars,
      question marks and escapes inside it match; a set that is never closed has only those; a
      backslash with nothing after it is nothing. */
  predicate Glob(q: Bytes, t: Bytes)
    decreases |q|
  {
    if q == [] then t == []
    else if q[0] == BACKSLASH then
      if |q| == 1 then t == [] else t != [] && t[0] == q[1] && Glob(q[2..], t[1..])
    else if q[0] == STAR then exists k: nat | k <= |t| :: Glob(q[1..], t[k..])
    else if q[0] == QUESTION then t != [] && Glob(q[1..], t[1..])
    else if q[0] == OPEN then
      match FirstClose(q[1..])
      case None => Glob(Between(q[1..]), t)
      case Some(i) =>
        var body := q[1..][..i];
        exists k: nat | k < |t| ::
          Glob(Between(body), t[..k]) && InBracket(Members(body), t[k]) && Glob(q[i + 2..], t[k + 1..])
    else t != [] && t[0] == q[0] && Glob(q[1..], t[1..])
  }

  function Codes(s: Bytes): (r: seq<int>)
    ensures |r| == |s|
  {
    seq(|s|, i requires 0 <= i < |s| => s[i] as int)
  }

  function Final(q: Bytes): Compiler {
    Steps(START, Codes(q))
  }

  function Items(q: Bytes): seq<Item> {
    Final(q).items
  }

  predicate Whole(q: Bytes) {
    !Final(q).escape && Final(q).open.None?
  }

  /** The compiler sees of every character its low byte. */
  lemma {:induction false} OnlyLowBytes(c: Compiler, runes: seq<int>)
    ensures Steps(c, runes) == Steps(c, Codes(LowBytes(runes)))
    decreases |runes|
  {
    if runes != [] {
      var low := LowBytes(runes);
      assert low[1..] == LowBytes(runes[1..]);
      assert Codes(low)[1..] == Codes(low[1..]);
      assert Step(c, runes[0]) == Step(c, Codes(low)[0]);
      OnlyLowBytes(Step(c, runes[0]), runes[1..]);
    }
  }

  lemma NoItems()
    ensures Items([]) == [] && Whole([])
  {
  }

  lemma StepsFirst(c: Compiler, q: Bytes)
    requires q != []
    ensures Steps(c, Codes(q)) == Steps(Step(c, q[0] as int), Codes(q[1..]))
  {
    hide Step;
    assert Codes(q)[1..] == Codes(q[1..]);
  }

  /** A character that becomes an item by itself. */
  lemma OneItemFirst(q: Bytes, item: Item)
    requires q != [] && Step(START, q[0] as int) == START.(items := [item])
    ensures Items(q) == [item] + Items(q[1..])
    ensures Whole(q) <==> Whole(q[1..])
  {
    hide Step;
    StepsFirst(START, q);
    StepsPrefix(START.(items := [item]), Codes(q[1..]));
    assert START.(items := [item]).(items := []) == START;
  }

  lemma SingleSteps(b: byte)
    ensures Step(START, STAR as int).items == [All] && Step(START, QUESTION as int).items == [Any]
    ensures b != STAR && b != QUESTION && b != BACKSLASH && b != OPEN ==>
              Step(START, b as int) == START.(items := [Normal(b)])
    ensures Step(START, STAR as int) == START.(items := [All])
    ensures Step(START, QUESTION as int) == START.(items := [Any])
    ensures Step(START, OPEN as int) == START.(open := Some({}))
  {
  }

  lemma EscapedFirst(c: Compiler, q: Bytes)
    requires !c.escape && |q| >= 2 && q[0] == BACKSLASH
    ensures Steps(c, Codes(q)) == Steps(c.(items := c.items + [Normal(q[1])]), Codes(q[2..]))
  {
    var d := c.(escape := true);
    assert Step(c, q[0] as int) == d;
    assert Step(d, q[1] as int) == c.(items := c.items + [Normal(q[1])]);
    hide Step;
    StepsFirst(c, q);
    StepsFirst(d, q[1..]);
    assert q[1..][1..] == q[2..];
  }

  lemma EscapedItems(q: Bytes)
    requires |q| >= 2 && q[0] == BACKSLASH
    ensures Items(q) == [Normal(q[1])] + Items(q[2..])
    ensures Whole(q) <==> Whole(q[2..])
  {
    hide Steps;
    EscapedFirst(START, q);
    assert [] + [Normal(q[1])] == [Normal(q[1])];
    StepsPrefix(START.(items := [Normal(q[1])]), Codes(q[2..]));
    assert START.(items := [Normal(q[1])]).(items := []) == START;
  }

  /** Every escape has its character. */
  predicate Complete(body: Bytes)
    decreases |body|
  {
    body == [] || (if body[0] == BACKSLASH then |body| >= 2 && Complete(body[2..]) else Complete(body[1..]))
  }

  lemma {:induction false} UpToClose(q: Bytes)
    requires FirstClose(q).Some?
    ensures var body := q[..FirstClose(q).value]; Complete(body) && FirstClose(body).None?
    decreases |q|
  {
    var i := FirstClose(q).value;
    if i > 0 {
      var n := if q[0] == BACKSLASH && |q| > 1 then 2 else 1;
      UpToClose(q[n..]);
      assert q[..i][n..] == q[n..][..i - n];
    }
  }

  /** With a set open, what is in between is compiled as if there were no set, and the members gather
      in it. */
  lemma {:induction false} SetGathers(c: Compiler, body: Bytes)
    requires !c.escape && c.open.Some? && FirstClose(body).None?
    ensures Whole(Between(body))
    ensures var d := Steps(c, Codes(body));
      && d.items == c.items + Items(Between(body))
      && (Complete(body) ==> !d.escape && d.open == Some(c.open.value + Elements(Members(body))))
    decreases |body|
  {
    hide Steps, Codes, Step;
    if body == [] {
      NothingGathered(c);
    } else if body[0] == BACKSLASH {
      GathersEscape(c, body);
    } else {
      var tail := body[1..];
      StepsFirst(c, body);
      InSet(c, body[0]);
      SetGathers(Step(c, body[0] as int), tail);
      if body[0] == STAR || body[0] == QUESTION {
        var item := if body[0] == STAR then All else Any;
        SingleSteps(body[0]);
        assert Between(body)[1..] == Between(tail);
        OneItemFirst(Between(body), item);
        Assoc(c.items, [item], Items(Between(tail)));
      } else {
        MoreMembers(c.open.value, body[0], Members(tail));
      }
    }
  }

  function Elements(s: Bytes): set<byte> {
    set b | b in s
  }

  lemma NothingGathered(c: Compiler)
    requires c.open.Some?
    ensures Steps(c, Codes([])) == c && c.items + Items([]) == c.items && Whole([])
    ensures c.open.value + Elements([]) == c.open.value
  {
  }

  lemma MoreMembers(members: set<byte>, b: byte, more: Bytes)
    ensures members + Elements([b] + more) == (members + {b}) + Elements(more)
  {
  }

  lemma InSet(c: Compiler, b: byte)
    requires !c.escape && c.open.Some? && b != BACKSLASH && b != CLOSE
    ensures Step(c, b as int) == if b == STAR then c.(items := c.items + [All])
                                 else if b == QUESTION then c.(items := c.items + [Any])
                                 else c.(open := Some(c.open.value + {b}))
  {
  }

  lemma {:induction false} GathersEscape(c: Compiler, body: Bytes)
    requires !c.escape && c.open.Some? && FirstClose(body).None? && body != [] && body[0] == BACKSLASH
    ensures Whole(Between(body))
    ensures var d := Steps(c, Codes(body));
      && d.items == c.items + Items(Between(body))
      && (Complete(body) ==> !d.escape && d.open == Some(c.open.value + Elements(Members(body))))
    decreases |body|, 0
  {
    hide Steps, Codes;
    if |body| == 1 {
      StepsFirst(c, body);
      NothingGathered(c.(escape := true));
    } else {
      var item, tail := Normal(body[1]), body[2..];
      EscapedFirst(c, body);
      SetGathers(c.(items := c.items + [item]), tail);
      assert Between(body)[2..] == Between(tail);
      EscapedItems(Between(body));
      Assoc(c.items, [item], Items(Between(tail)));
    }
  }

  /** A closed set: its items, the set's, and those of the rest. */
  lemma SetItems(q: Bytes, i: nat)
    requires q != [] && q[0] == OPEN && FirstClose(q[1..]) == Some(i)
    ensures var body := q[1..][..i];
      Items(q) == (Items(Between(body)) + [Bracket(Elements(Members(body)))]) + Items(q[i + 2..])
  {
    hide Steps, Codes, Step;
    var body, rest := q[1..][..i], q[i + 2..];
    UpToClose(q[1..]);
    SingleSteps(OPEN);
    StepsFirst(START, q);
    var inside := START.(open := Some({}));
    SetGathers(inside, body);
    CodesSplit(q[1..], i);
    StepsConcat(inside, Codes(body), Codes(q[1..][i..]));
    var c := Steps(inside, Codes(body));
    StepsFirst(c, q[1..][i..]);
    assert q[1..][i..][1..] == rest;
    ClosesSet(c, Elements(Members(body)));
    StepsPrefix(Step(c, CLOSE as int), Codes(rest));
  }

  lemma CodesSplit(q: Bytes, i: nat)
    requires i <= |q|
    ensures Codes(q) == Codes(q[..i]) + Codes(q[i..])
  {
  }

  lemma ClosesSet(c: Compiler, members: set<byte>)
    requires !c.escape && c.open == Some({} + members)
    ensures Step(c, CLOSE as int) == Compiler(c.items + [Bracket(members)], false, None)
  {
    assert {} + members == members;
  }

  lemma OpenItems(q: Bytes)
    requires q != [] && q[0] == OPEN && FirstClose(q[1..]).None?
    ensures Items(q) == Items(Between(q[1..]))
  {
    hide Steps, Codes, Step;
    SingleSteps(OPEN);
    StepsFirst(START, q);
    SetGathers(START.(open := Some({})), q[1..]);
    assert [] + Items(Between(q[1..])) == Items(Between(q[1..]));
  }

  /** One item in front, matching one byte. */
  lemma MatchFirst(item: Item, items: seq<Item>, t: Bytes)
    requires !item.All?
    ensures Match([item] + items, t) <==> t != [] && Takes(item, t[0]) && Match(items, t[1..])
  {
    hide Match;
    SplitLaw([item], items, t);
    forall k: nat | k <= |t| ensures Match([item], t[..k]) <==> k == 1 && Takes(item, t[0]) {
      OneItem(item, t[..k]);
    }
    if t != [] && Takes(item, t[0]) && Match(items, t[1..]) {
      assert SplitMatches([item], items, t, 1);
    }
  }

  lemma MatchStar(items: seq<Item>, t: Bytes)
    ensures Match([All] + items, t) <==> exists k: nat | k <= |t| :: Match(items, t[k..])
  {
    hide Match;
    SplitLaw([All], items, t);
    if k: nat :| k <= |t| && Match(items, t[k..]) {
      StarTakes(t[..k]);
      assert SplitMatches([All], items, t, k);
    }
  }

  /** Items, one that matches one byte, and more items. */
  lemma MatchAround(front: seq<Item>, item: Item, items: seq<Item>, t: Bytes)
    requires !item.All?
    ensures Match((front + [item]) + items, t) <==>
            exists k: nat | k < |t| :: Match(front, t[..k]) && Takes(item, t[k]) && Match(items, t[k + 1..])
  {
    hide Match;
    Assoc(front, [item], items);
    SplitLaw(front, [item] + items, t);
    if Match((front + [item]) + items, t) {
      var k :| SplitMatches(front, [item] + items, t, k);
      MatchAt(item, items, t, k);
    }
    if k: nat :| k < |t| && Match(front, t[..k]) && Takes(item, t[k]) && Match(items, t[k + 1..]) {
      MatchAt(item, items, t, k);
      assert SplitMatches(front, [item] + items, t, k);
    }
  }

  lemma MatchAt(item: Item, items: seq<Item>, t: Bytes, k: nat)
    requires !item.All? && k <= |t|
    ensures Match([item] + items, t[k..]) <==> k < |t| && Takes(item, t[k]) && Match(items, t[k + 1..])
  {
    hide Match;
    MatchFirst(item, items, t[k..]);
    if k < |t| {
      assert t[k..][1..] == t[k + 1..];
    }
  }

  lemma BracketTakes(members: Bytes, c: byte)
    ensures Takes(Bracket(Elements(members)), c) <==> InBracket(members, c)
  {
    var all := Elements(members);
    assert (set b | b in members && b != MINUS) == all - {MINUS};
  }

  lemma {:induction false} ItemsMeanGlob(q: Bytes, t: Bytes)
    ensures Match(Items(q), t) <==> Glob(q, t)
    decreases |q|
  {
    hide Match, Items, Takes, InBracket;
    if q == [] {
      NoItems();
      MatchNothing(t);
    } else if q[0] == BACKSLASH {
      if |q| == 1 {
        LoneBackslash(q);
        MatchNothing(t);
      } else {
        EscapedItems(q);
        MatchFirst(Normal(q[1]), Items(q[2..]), t);
        TakesItself(q[1]);
        if t != [] {
          ItemsMeanGlob(q[2..], t[1..]);
        }
      }
    } else if q[0] == STAR {
      SingleSteps(STAR);
      OneItemFirst(q, All);
      MatchStar(Items(q[1..]), t);
      forall k: nat | k <= |t| ensures Match(Items(q[1..]), t[k..]) <==> Glob(q[1..], t[k..]) {
        ItemsMeanGlob(q[1..], t[k..]);
      }
    } else if q[0] == QUESTION {
      SingleSteps(QUESTION);
      OneItemFirst(q, Any);
      MatchFirst(Any, Items(q[1..]), t);
      if t != [] {
        TakesItself(t[0]);
        ItemsMeanGlob(q[1..], t[1..]);
      }
    } else if q[0] == OPEN {
      SetMeansGlob(q, t);
    } else {
      SingleSteps(q[0]);
      OneItemFirst(q, Normal(q[0]));
      MatchFirst(Normal(q[0]), Items(q[1..]), t);
      TakesItself(q[0]);
      if t != [] {
        ItemsMeanGlob(q[1..], t[1..]);
      }
    }
  }

  lemma TakesItself(b: byte)
    ensures forall c :: Takes(Normal(b), c) <==> c == b
    ensures forall c :: Takes(Any, c)
  {
  }

  lemma MatchNothing(t: Bytes)
    ensures Match([], t) <==> t == []
  {
  }

  lemma LoneBackslash(q: Bytes)
    requires q == [BACKSLASH]
    ensures Items(q) == []
  {
    StepsFirst(START, q);
  }

  lemma {:induction false} SetMeansGlob(q: Bytes, t: Bytes)
    requires q != [] && q[0] == OPEN
    ensures Match(Items(q), t) <==> Glob(q, t)
    decreases |q|, 0
  {
    hide Match, Items, Takes, InBracket;
    if FirstClose(q[1..]).None? {
      OpenItems(q);
      ItemsMeanGlob(Between(q[1..]), t);
    } else {
      var i := FirstClose(q[1..]).value;
      var body, rest := q[1..][..i], q[i + 2..];
      SetItems(q, i);
      MatchAround(Items(Between(body)), Bracket(Elements(Members(body))), Items(rest), t);
      forall k: nat | k < |t|
        ensures Match(Items(Between(body)), t[..k]) <==> Glob(Between(body), t[..k])
        ensures Takes(Bracket(Elements(Members(body))), t[k]) <==> InBracket(Members(body), t[k])
        ensures Match(Items(rest), t[k + 1..]) <==> Glob(rest, t[k + 1..])
      {
        ItemsMeanGlob(Between(body), t[..k]);
        BracketTakes(Members(body), t[k]);
        ItemsMeanGlob(rest, t[k + 1..]);
      }
    }
  }

  /** Compiling and matching, for every pattern and every string: the compiled pattern matches exactly the
      strings that the pattern's characters describe, each of them cut down to its low byte. */
  lemma CompiledMeansGlob(src: Bytes, t: Bytes)
    ensures Match(Compile(src), t) <==> Glob(LowBytes(Runes(src)), t)
  {
    hide Match, Glob, Runes, Steps;
    OnlyLowBytes(START, Runes(src));
    ItemsMeanGlob(LowBytes(Runes(src)), t);
  }

  /** An ASCII pattern is its own characters. */
  lemma AsciiMeansGlob(src: Bytes, t: Bytes)
    requires forall i | 0 <= i < |src| :: src[i] < 128
    ensures Match(Compile(src), t) <==> Glob(src, t)
  {
    hide Match, Glob, Runes, Compile;
    LowBytesAreSame(src);
    CompiledMeansGlob(src, t);
  }

  /** A set without stars, question marks and escapes matches one byte, by the code's rule. */
  lemma BracketMeaning(body: Bytes, t: Bytes)
    requires forall i | 0 <= i < |body| :: body[i] < 128 && body[i] !in [STAR, QUESTION, BACKSLASH, CLOSE]
    ensures Match(Compile([OPEN] + body + [CLOSE]), t) <==> |t| == 1 && InBracket(body, t[0])
  {
    hide Match, Compile, InBracket, Glob, FirstClose, Members, Between;
    AsciiMeansGlob([OPEN] + body + [CLOSE], t);
    GlobOfBracket(body, t);
    if |t| == 1 {
      assert t[..0] == [] && t[1..] == [];
    }
  }

  lemma GlobOfBracket(body: Bytes, t: Bytes)
    requires forall i | 0 <= i < |body| :: body[i] !in [STAR, QUESTION, BACKSLASH, CLOSE]
    ensures Glob([OPEN] + body + [CLOSE], t) <==>
            exists k: nat | k < |t| :: t[..k] == [] && InBracket(body, t[k]) && t[k + 1..] == []
  {
    hide InBracket;
    var q := [OPEN] + body + [CLOSE];
    PlainBody(body, [CLOSE]);
    assert q[1..] == body + [CLOSE] && q[1..][..|body|] == body && q[|body| + 2..] == [];
    hide FirstClose, Members, Between;
  }

  lemma {:induction false} PlainBody(body: Bytes, rest: Bytes)
    requires forall i | 0 <= i < |body| :: body[i] !in [STAR, QUESTION, BACKSLASH, CLOSE]
    requires rest != [] && rest[0] == CLOSE
    ensures FirstClose(body + rest) == Some(|body|) && Between(body) == [] && Members(body) == body
    decreases |body|
  {
    if body == [] {
      assert body + rest == rest;
    } else {
      assert (body + rest)[1..] == body[1..] + rest;
      PlainBody(body[1..], rest);
    }
  }
}
