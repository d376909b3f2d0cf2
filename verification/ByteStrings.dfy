/** Byte strings: the model's counterpart of Go's `[]byte` and `string`. */
module ByteStrings {

  newtype byte = b: int | 0 <= b < 256

  type Bytes = seq<byte>

  /** A command line: the command's name followed by its arguments. */
  type CmdLine = seq<Bytes>

  const LF: byte := 10
  const CR: byte := 13
  const DOLLAR: byte := 36
  const STAR: byte := 42
  const PLUS: byte := 43
  const MINUS: byte := 45
  const COLON: byte := 58
  const CRLF: Bytes := [CR, LF]

  datatype Option<+T> = None | Some(value: T)

  /** The bytes of an ASCII text. */
  function Ascii(text: string): (b: Bytes)
    ensures |b| == |text|
    ensures forall i | 0 <= i < |text| :: b[i] as int == text[i] as int % 256
  {
    seq(|text|, i requires 0 <= i < |text| => (text[i] as int % 256) as byte)
  }

  /** What there is to read up to and including the first `b`, and what follows it. */
  function ReadTo(s: Bytes, b: byte): (r: Option<(Bytes, Bytes)>)
    ensures r.Some? ==> r.value.0 != [] && r.value.0[|r.value.0| - 1] == b && |r.value.0| + |r.value.1| == |s|
  {
    if s == [] then None
    else if s[0] == b then Some(([b], s[1..]))
    else
      match ReadTo(s[1..], b)
      case None => None
      case Some((line, rest)) => Some(([s[0]] + line, rest))
  }

  lemma {:induction false} ReadToSplits(s: Bytes, b: byte)
    ensures match ReadTo(s, b)
            case None => b !in s
            case Some((line, rest)) => s == line + rest && forall i | 0 <= i < |line| - 1 :: line[i] != b
  {
    if s != [] && s[0] != b {
      ReadToSplits(s[1..], b);
    }
  }

  lemma {:induction false} ReadToFirst(line: Bytes, b: byte, rest: Bytes)
    requires b !in line
    ensures ReadTo(line + ([b] + rest), b) == Some((line + [b], rest))
  {
    var s := line + ([b] + rest);
    if line == [] {
      assert s == [b] + rest && s[1..] == rest;
      assert line + [b] == [b];
    } else {
      assert s[1..] == line[1..] + ([b] + rest);
      ReadToFirst(line[1..], b, rest);
      assert line + [b] == [line[0]] + (line[1..] + [b]);
    }
  }

  lemma {:induction false} ReadToExtends(s: Bytes, b: byte, more: Bytes)
    requires ReadTo(s, b).Some?
    ensures ReadTo(s + more, b) == Some((ReadTo(s, b).value.0, ReadTo(s, b).value.1 + more))
  {
    assert (s + more)[1..] == s[1..] + more;
    if s[0] != b {
      ReadToExtends(s[1..], b, more);
    }
  }

  lemma Assoc<T>(a: seq<T>, b: seq<T>, c: seq<T>)
    ensures (a + b) + c == a + (b + c)
  {
  }

  /** `strings.ToLower` on ASCII bytes; bytes above 127 are kept. */
  function ToLower(s: Bytes): (r: Bytes)
    ensures |r| == |s|
  {
    seq(|s|, i requires 0 <= i < |s| => if 65 <= s[i] <= 90 then s[i] + 32 else s[i])
  }

  /** A word in small letters, spelt with any of them capital. */
  predicate Spelt(w: Bytes, word: string) {
    && |w| == |word|
    && forall i | 0 <= i < |w| ::
         w[i] as int == word[i] as int || ('a' <= word[i] <= 'z' && w[i] as int == word[i] as int - 32)
  }

  predicate InSmallLetters(word: string) {
    forall i | 0 <= i < |word| :: 'a' <= word[i] <= 'z'
  }

  /** Lower-casing gives the word exactly for its spellings. */
  lemma SpeltExactly(w: Bytes, word: string)
    requires InSmallLetters(word)
    ensures ToLower(w) == Ascii(word) <==> Spelt(w, word)
  {
    var low, text := ToLower(w), Ascii(word);
    if low == text {
      forall i | 0 <= i < |w|
        ensures w[i] as int == word[i] as int || ('a' <= word[i] <= 'z' && w[i] as int == word[i] as int - 32)
      {
        assert low[i] == text[i];
      }
    }
  }
}
