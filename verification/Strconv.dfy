/** The decimal conversions the server takes from Go's `strconv`. */
module Strconv {
  import opened ByteStrings

  const UINT32_MAX: int := 0xFFFF_FFFF
  const INT64_MAX: int := 0x7FFF_FFFF_FFFF_FFFF

  predicate IsDigit(b: byte) {
    48 <= b <= 57
  }

  predicate AllDigits(s: Bytes) {
    forall i | 0 <= i < |s| :: IsDigit(s[i])
  }

  /** The number a string of decimal digits denotes. */
  function Value(s: Bytes): nat
    requires AllDigits(s)
  {
    if s == [] then 0 else 10 * Value(s[..|s| - 1]) + (s[|s| - 1] as int - 48)
  }

  function Digits(n: nat): (d: Bytes)
    ensures d != [] && AllDigits(d) && Value(d) == n
    ensures |d| <= 1 + n / 10
  {
    if n < 10 then
      var d := [(48 + n) as byte];
      assert d[..0] == [];
      d
    else
      var front, last := Digits(n / 10), (48 + n % 10) as byte;
      assert (front + [last])[..|front|] == front;
      front + [last]
  }

  /** `strconv.Itoa` and `strconv.FormatInt(_, 10)`. */
  function Itoa(n: int): (s: Bytes)
    ensures s != []
  {
    if n < 0 then [MINUS] + Digits(-n) else Digits(n)
  }

  /** `strconv.ParseUint(s, 10, _)`: digits only, at least one, at most `max`. */
  function ParseUint(s: Bytes, max: nat): Option<nat> {
    if s != [] && AllDigits(s) && Value(s) <= max then Some(Value(s)) else None
  }

  /** `strconv.ParseInt(s, 10, 64)` and `strconv.Atoi`: an optional sign, then digits. */
  function ParseInt(s: Bytes): Option<int> {
    if s == [] then None
    else if s[0] == MINUS then
      match ParseUint(s[1..], INT64_MAX + 1)
      case Some(n) => Some(0 - n as int)
      case None => None
    else
      match ParseUint(if s[0] == PLUS then s[1..] else s, INT64_MAX)
      case Some(n) => Some(n)
      case None => None
  }

  predicate IsInt64(n: int) {
    -INT64_MAX - 1 <= n <= INT64_MAX
  }

  /** Printing and reading an integer back succeeds for the 64-bit integers and for no others. */
  lemma ParseIntOfItoa(n: int)
    ensures ParseInt(Itoa(n)) == if IsInt64(n) then Some(n) else None
  {
    if n < 0 {
      assert Itoa(n)[1..] == Digits(-n);
    } else {
      assert IsDigit(Digits(n)[0]);
    }
  }

  function Zeros(k: nat): (z: Bytes)
    ensures |z| == k
  {
    seq(k, i => 48)
  }

  lemma {:induction false} LeadingZeros(k: nat, d: Bytes)
    requires AllDigits(d)
    ensures AllDigits(Zeros(k) + d) && Value(Zeros(k) + d) == Value(d)
    decreases k + |d|
  {
    var s := Zeros(k) + d;
    if d != [] {
      assert s[..|s| - 1] == Zeros(k) + d[..|d| - 1];
      LeadingZeros(k, d[..|d| - 1]);
    } else if k > 0 {
      assert s[..k - 1] == Zeros(k - 1) + [];
      LeadingZeros(k - 1, []);
    }
  }

  /** Every string of digits is some zeros in front of what its value is printed as. */
  lemma {:induction false} DigitsAreDecimal(s: Bytes) returns (k: nat)
    requires s != [] && AllDigits(s)
    ensures s == Zeros(k) + Digits(Value(s))
    decreases |s|
  {
    var front, last := s[..|s| - 1], s[|s| - 1];
    assert s == front + [last];
    if front == [] {
      k := 0;
    } else {
      k := DigitsAreDecimal(front);
      if Value(front) == 0 {
        k := k + 1;
      }
    }
  }

  /** The decimal spellings of an unsigned number: any zeros in front. */
  ghost predicate SpellsUnsigned(s: Bytes, n: nat) {
    exists k: nat :: s == Zeros(k) + Digits(n)
  }

  /** The decimal spellings of a number: a minus for negative ones, a plus or nothing for positive ones, any
      of these for zero. */
  ghost predicate Spells(s: Bytes, n: int) {
    || (n <= 0 && s != [] && s[0] == MINUS && SpellsUnsigned(s[1..], -n))
    || (n >= 0 && s != [] && s[0] == PLUS && SpellsUnsigned(s[1..], n))
    || (n >= 0 && SpellsUnsigned(s, n))
  }

  /** Only its decimal spellings are read as a number, and all of them are, within the bounds. */
  lemma ParseUintExactly(s: Bytes, max: nat, n: nat)
    ensures ParseUint(s, max) == Some(n) <==> SpellsUnsigned(s, n) && n <= max
  {
    if s != [] && AllDigits(s) {
      var k := DigitsAreDecimal(s);
    }
    if SpellsUnsigned(s, n) {
      var k: nat :| s == Zeros(k) + Digits(n);
      LeadingZeros(k, Digits(n));
    }
  }

  lemma ParseIntExactly(s: Bytes, n: int)
    ensures ParseInt(s) == Some(n) <==> Spells(s, n) && IsInt64(n)
  {
    hide ParseUint, SpellsUnsigned;
    FirstOfUnsigned(s, if n < 0 then 0 else n);
    if s != [] {
      if n <= 0 {
        ParseUintExactly(s[1..], INT64_MAX + 1, -n);
      }
      if n >= 0 {
        ParseUintExactly(s[1..], INT64_MAX, n);
        ParseUintExactly(s, INT64_MAX, n);
      }
    }
  }

  lemma FirstOfUnsigned(s: Bytes, n: nat)
    ensures SpellsUnsigned(s, n) ==> s != [] && s[0] != MINUS && s[0] != PLUS
  {
    if SpellsUnsigned(s, n) {
      var k: nat :| s == Zeros(k) + Digits(n);
      LeadingZeros(k, Digits(n));
      assert IsDigit(s[0]);
    }
  }

  /** A printed integer holds no line feed and no carriage return. */
  lemma ItoaIsOneLine(n: int)
    ensures LF !in Itoa(n) && CR !in Itoa(n)
  {
    var d := Digits(if n < 0 then -n else n);
    forall b | b in d ensures IsDigit(b) {
      var i :| 0 <= i < |d| && d[i] == b;
    }
  }
}
