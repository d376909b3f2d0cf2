/** The glob patterns of lib/wildcard/wildcard.go: their meaning, the compiler and the matcher. */
module Wildcard {
  import opened ByteStrings

  datatype Item =
    | Normal(character: byte)
    | All
    | Any
    | Set(members: set<byte>)
    | Range(members: set<byte>)
    | Neg(members: set<byte>)

  /** What an item other than `*` accepts. A range reaches from its least to its greatest member,
      wherever the dash stood; a set with a dash and a caret is a negation. */
  predicate Takes(item: Item, c: byte) {
    match item
    case Normal(character) => c == character
    case All => true
    case Any => true
    case Set(members) => c in members
    case Range(members) => (exists lo | lo in members :: lo <= c) && (exists hi | hi in members :: c <= hi)
    case Neg(members) => c !in members
  }

  /** Meaning, as a cutting of the string: one piece per item, any piece for `*`, one accepted byte
      for every other item. */
  ghost predicate Cuts(items: seq<Item>, s: Bytes, pieces: seq<Bytes>) {
    && |pieces| == |items|
    && Flatten(pieces) == s
    && forall i | 0 <= i < |items| :: Fits(items[i], pieces[i])
  }

  predicate Fits(item: Item, piece: Bytes) {
    item.All? || (|piece| == 1 && Takes(item, piece[0]))
  }

  function Flatten(pieces: seq<Bytes>): Bytes {
    if pieces == [] then [] else Flatten(pieces[..|pieces| - 1]) + pieces[|pieces| - 1]
  }

  ghost predicate Matches(items: seq<Item>, s: Bytes) {
    exists pieces :: Cuts(items, s, pieces)
  }

  /** The same meaning, by recursion on the last item: the recurrence the table is filled by. */
  predicate Match(items: seq<Item>, s: Bytes)
    decreases |items| + |s|
  {
    if items == [] then s == []
    else
      var n, m := |items| - 1, |s| - 1;
      if items[n].All? then Match(items[..n], s) || (s != [] && Match(items, s[..m]))
      else s != [] && Takes(items[n], s[m]) && Match(items[..n], s[..m])
  }

  lemma {:induction false} MatchHasCuts(items: seq<Item>, s: Bytes) returns (pieces: seq<Bytes>)
    requires Match(items, s)
    ensures Cuts(items, s, pieces)
    decreases |items| + |s|
  {
    if items == [] {
      pieces := [];
      return;
    }
    var n, m := |items| - 1, |s| - 1;
    if items[n].All? && Match(items[..n], s) {
      var front := MatchHasCuts(items[..n], s);
      pieces := front + [[]];
      assert pieces[..n] == front;
    } else if items[n].All? {
      var shorter := MatchHasCuts(items, s[..m]);
      pieces := shorter[..n] + [shorter[n] + [s[m]]];
      assert pieces[..n] == shorter[..n];
      Assoc(Flatten(shorter[..n]), shorter[n], [s[m]]);
      assert s == s[..m] + [s[m]];
    } else {
      var front := MatchHasCuts(items[..n], s[..m]);
      pieces := front + [[s[m]]];
      assert pieces[..n] == front;
      assert s == s[..m] + [s[m]];
    }
  }

  lemma {:induction false} CutsMatch(items: seq<Item>, s: Bytes, pieces: seq<Bytes>)
    requires Cuts(items, s, pieces)
    ensures Match(items, s)
    decreases |items| + |s|
  {
    if items != [] {
      var n, m := |items| - 1, |s| - 1;
      var front, last := pieces[..n], pieces[n];
      if last == [] {
        assert Flatten(front) + [] == Flatten(front);
        CutsMatch(items[..n], s, front);
      } else {
        var k := |last| - 1;
        assert s[m] == last[k];
        assert s[..m] == Flatten(front) + last[..k];
        if items[n].All? {
          var shorter := front + [last[..k]];
          assert shorter[..n] == front;
          CutsMatch(items, s[..m], shorter);
        } else {
          assert last[..k] == [];
          assert s[..m] == Flatten(front);
          CutsMatch(items[..n], s[..m], front);
        }
      }
    }
  }

  /** The recurrence decides the declarative meaning. */
  lemma MatchIsMatches(items: seq<Item>, s: Bytes)
    ensures Match(items, s) <==> Matches(items, s)
  {
    if Match(items, s) {
      var pieces := MatchHasCuts(items, s);
    }
    if Matches(items, s) {
      var pieces :| Cuts(items, s, pieces);
      CutsMatch(items, s, pieces);
    }
  }

  lemma {:induction false} FlattenConcat(a: seq<Bytes>, b: seq<Bytes>)
    ensures Flatten(a + b) == Flatten(a) + Flatten(b)
  {
    if b == [] {
      assert a + b == a;
    } else {
      var n := |b| - 1;
      assert (a + b)[..|a| + n] == a + b[..n];
      FlattenConcat(a, b[..n]);
      Assoc(Flatten(a), Flatten(b[..n]), b[n]);
    }
  }

  lemma CutsSplit(p: seq<Item>, q: seq<Item>, s: Bytes, a: seq<Bytes>, b: seq<Bytes>)
    requires Cuts(p + q, s, a + b) && |a| == |p|
    ensures |Flatten(a)| <= |s|
    ensures Cuts(p, s[..|Flatten(a)|], a) && Cuts(q, s[|Flatten(a)|..], b)
  {
    hide Flatten, Fits;
    FlattenConcat(a, b);
    forall i | 0 <= i < |p| ensures Fits(p[i], a[i]) {
      assert Fits((p + q)[i], (a + b)[i]);
    }
    forall i | 0 <= i < |q| ensures Fits(q[i], b[i]) {
      assert Fits((p + q)[|p| + i], (a + b)[|p| + i]);
    }
  }

  ghost predicate SplitMatches(p: seq<Item>, q: seq<Item>, s: Bytes, k: int) {
    0 <= k <= |s| && Match(p, s[..k]) && Match(q, s[k..])
  }

  /** Two patterns in a row match exactly the strings that can be cut between them. */
  lemma SplitLaw(p: seq<Item>, q: seq<Item>, s: Bytes)
    ensures Match(p + q, s) <==> exists k :: SplitMatches(p, q, s, k)
  {
    hide Match, Flatten;
    if Match(p + q, s) {
      var pieces := MatchHasCuts(p + q, s);
      var a, b := pieces[..|p|], pieces[|p|..];
      assert pieces == a + b;
      CutsSplit(p, q, s, a, b);
      var k := |Flatten(a)|;
      CutsMatch(p, s[..k], a);
      CutsMatch(q, s[k..], b);
      assert SplitMatches(p, q, s, k);
    }
    if exists k :: SplitMatches(p, q, s, k) {
      var k :| SplitMatches(p, q, s, k);
      var a := MatchHasCuts(p, s[..k]);
      var b := MatchHasCuts(q, s[k..]);
      FlattenConcat(a, b);
      assert s == s[..k] + s[k..];
      CutsMatch(p + q, s, a + b);
    }
  }

  /** The loop of `contains` over a range's members; 255 and 0 when there are none. */
  method MinMax(members: set<byte>) returns (min: byte, max: byte)
    ensures forall k | k in members :: min <= k <= max
    ensures if members == {} then min == 255 && max == 0 else min in members && max in members
  {
    min, max := 255, 0;
    var left := members;
    while left != {}
      invariant left <= members
      invariant forall k | k in members && k !in left :: min <= k <= max
      invariant if members == left then min == 255 && max == 0 else min in members && max in members
      decreases |left|
    {
      var k :| k in left;
      if min > k {
        min := k;
      }
      if max < k {
        max := k;
      }
      left := left - {k};
    }
  }

  /** `item.contains`, for the three bracket items. */
  method Contains(item: Item, c: byte) returns (found: bool)
    requires item.Set? || item.Range? || item.Neg?
    ensures found <==> Takes(item, c)
  {
    if item.Set? {
      return c in item.members;
    } else if item.Range? {
      if c in item.members {
        return true;
      }
      var min, max := MinMax(item.members);
      return min <= c <= max;
    } else {
      return c !in item.members;
    }
  }

  /** `Pattern.IsMatch`: `table[i,j]` says whether the first j items match the first i bytes. */
  method IsMatch(items: seq<Item>, s: Bytes) returns (matched: bool)
    ensures matched <==> Match(items, s)
  {
    if |items| == 0 {
      return |s| == 0;
    }
    var m, n := |s|, |items|;
    var table := new bool[m + 1, n + 1]((i, j) => false);
    table[0, 0] := true;
    hide Match;
    Borders(items, s);
    for j := 1 to n + 1
      invariant forall j' | 0 <= j' < j :: table[0, j'] == Match(items[..j'], s[..0])
      invariant forall i' | 1 <= i' <= m :: table[i', 0] == false
    {
      FirstRow(items, s, j);
      table[0, j] := table[0, j - 1] && items[j - 1].All?;
    }
    for i := 1 to m + 1
      invariant forall i', j' | 0 <= i' < i && 0 <= j' <= n :: table[i', j'] == Match(items[..j'], s[..i'])
      invariant forall i' | i <= i' <= m :: table[i', 0] == false
    {
      FillRow(items, s, table, i);
    }
    assert items[..n] == items && s[..m] == s;
    return table[m, n];
  }

  /** The inner loop of `IsMatch`: row `i` of the table, from the row above it. */
  method FillRow(items: seq<Item>, s: Bytes, table: array2<bool>, i: nat)
    requires items != [] && 1 <= i <= |s| && table.Length0 == |s| + 1 && table.Length1 == |items| + 1
    requires forall j' | 0 <= j' <= |items| :: table[i - 1, j'] == Match(items[..j'], s[..i - 1])
    requires table[i, 0] == false
    modifies table
    ensures forall j' | 0 <= j' <= |items| :: table[i, j'] == Match(items[..j'], s[..i])
    ensures forall i', j' | 0 <= i' <= |s| && 0 <= j' <= |items| && i' != i :: table[i', j'] == old(table[i', j'])
  {
    hide Match;
    Borders(items, s);
    for j := 1 to |items| + 1
      invariant forall j' | 0 <= j' < j :: table[i, j'] == Match(items[..j'], s[..i])
      invariant forall i', j' | 0 <= i' <= |s| && 0 <= j' <= |items| && i' != i :: table[i', j'] == old(table[i', j'])
    {
      var entry := Entry(items[j - 1], s[i - 1], table[i - 1, j - 1], table[i - 1, j], table[i, j - 1]);
      Recurrence(items, s, i, j);
      table[i, j] := entry;
    }
  }

  /** One entry, from those up and left, up, and left of it. */
  method Entry(item: Item, c: byte, diagonal: bool, above: bool, left: bool) returns (entry: bool)
    ensures entry == if item.All? then above || left else diagonal && Takes(item, c)
  {
    if item.All? {
      return above || left;
    }
    if !diagonal || item.Any? {
      return diagonal;
    }
    if item.Normal? {
      return c == item.character;
    }
    entry := Contains(item, c);
  }

  lemma Borders(items: seq<Item>, s: Bytes)
    ensures forall i | 0 <= i <= |s| :: Match(items[..0], s[..i]) == (i == 0)
  {
  }

  lemma FirstRow(items: seq<Item>, s: Bytes, j: nat)
    requires 1 <= j <= |items|
    ensures Match(items[..j], s[..0]) == (Match(items[..j - 1], s[..0]) && items[j - 1].All?)
  {
    assert items[..j][..j - 1] == items[..j - 1];
  }

  lemma Recurrence(items: seq<Item>, s: Bytes, i: nat, j: nat)
    requires 1 <= i <= |s| && 1 <= j <= |items|
    ensures Match(items[..j], s[..i]) ==
            if items[j - 1].All? then Match(items[..j - 1], s[..i]) || Match(items[..j], s[..i - 1])
            else Takes(items[j - 1], s[i - 1]) && Match(items[..j - 1], s[..i - 1])
  {
    assert items[..j][..j - 1] == items[..j - 1];
    assert s[..i][..i - 1] == s[..i - 1];
  }
}
