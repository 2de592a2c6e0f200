/** Bytes and 32-bit unsigned words as bounded integers, for code about addresses and sizes.

    A mask of low bits is a remainder, a mask of high bits a multiple of a quotient, and a shift
    by eight a multiplication by 256; MasksAreRemainders ties those readings to the operators
    on bit vectors. */
module Words32 {
  type Byte = b: int | 0 <= b < 0x100
  type Word = w: int | 0 <= w < 0x1_0000_0000

  const WORD_RANGE: int := 0x1_0000_0000

  datatype Option<+T> = None | Some(value: T)

  lemma MasksAreRemainders(a: bv32, t: bv32, b: bv32)
    ensures a & 0x00FF_FFFF == a % 0x0100_0000 && (a & 0xFF00_0000) >> 24 == a / 0x0100_0000
    ensures a & 0xFFF0_0000 == 0x10_0000 * (a / 0x10_0000) && a & 0xFFE0_0000 == 0x20_0000 * (a / 0x20_0000)
    ensures a & 0xFFC0_0000 == 0x40_0000 * (a / 0x40_0000) && a & 0xFF80_0000 == 0x80_0000 * (a / 0x80_0000)
    ensures (a & 0xFFF0_0000) | 1 == (a & 0xFFF0_0000) + 1
    ensures t << 8 == t * 0x100
    ensures b < 0x100 ==> (t << 8) | b == (t << 8) + b
  {
  }

  /** The bitwise and of two words is not zero: bit by bit, from the lowest. */
  predicate CommonBit(a: Word, b: Word)
    decreases a
  {
    a > 0 && b > 0 && ((a % 2 == 1 && b % 2 == 1) || CommonBit(a / 2, b / 2))
  }

  /** The word a is h shifted up by one, with the lowest bit of l. */
  predicate Splits(a: bv32, h: bv32, l: bv32) {
    h & 0x8000_0000 == 0 && a == (h << 1) | (l & 1)
  }

  lemma TopClear(a: bv32)
    ensures (a >> 1) & 0x8000_0000 == 0
  {
  }

  lemma Rejoined(a: bv32)
    ensures a == ((a >> 1) << 1) | (a & 1)
  {
  }

  lemma Lower(a: bv32)
    ensures a != 0 ==> a >> 1 < a
  {
  }

  lemma Halves(a: bv32)
    ensures Splits(a, a >> 1, a)
  {
    TopClear(a);
    Rejoined(a);
  }

  lemma Split(a: bv32) returns (h: bv32, l: bv32)
    ensures Splits(a, h, l) && (a != 0 ==> h < a)
  {
    h, l := a >> 1, a;
    Halves(a);
    Lower(a);
  }

  lemma Doubled(h: bv32, l: bv32)
    requires h & 0x8000_0000 == 0
    ensures ((h << 1) | (l & 1)) as int == 2 * (h as int) + if l & 1 == 1 then 1 else 0
  {
    assert (l & 1) as int == if l & 1 == 1 then 1 else 0;
  }

  lemma ValueOfSplit(a: bv32, h: bv32, l: bv32) returns (x: Word, p: Word, low: bool)
    requires Splits(a, h, l)
    ensures x == a as int && p == h as int && low == (l & 1 == 1) && x == 2 * p + if low then 1 else 0
  {
    Doubled(h, l);
    x, p, low := a as Word, h as Word, l & 1 == 1;
  }

  lemma AndOfSplits(a: bv32, h: bv32, l: bv32, b: bv32, k: bv32, m: bv32)
    requires Splits(a, h, l) && Splits(b, k, m)
    ensures a & b != 0 <==> (l & 1 == 1 && m & 1 == 1) || h & k != 0
  {
  }

  lemma AndWithZero(a: bv32, b: bv32)
    ensures a == 0 || b == 0 ==> a & b == 0
    ensures a as int == 0 <==> a == 0
    ensures b as int == 0 <==> b == 0
  {
  }

  lemma CommonBitOfHalves(x: Word, y: Word, p: Word, q: Word, low: bool, low': bool)
    requires x == 2 * p + if low then 1 else 0
    requires y == 2 * q + if low' then 1 else 0
    ensures CommonBit(x, y) <==> x > 0 && y > 0 && ((low && low') || CommonBit(p, q))
  {
  }

  lemma CommonBitStep(a: bv32, h: bv32, l: bv32, b: bv32, k: bv32, m: bv32)
    requires Splits(a, h, l) && Splits(b, k, m) && a != 0 && b != 0
    ensures CommonBit(a as Word, b as Word) <==> (l & 1 == 1 && m & 1 == 1) || CommonBit(h as Word, k as Word)
  {
    AndWithZero(a, b);
    var x, p, low := ValueOfSplit(a, h, l);
    var y, q, low' := ValueOfSplit(b, k, m);
    CommonBitOfHalves(x, y, p, q, low, low');
  }

  /** It is the operator on the bits of the two words: their bitwise and is not zero. */
  lemma {:induction false} CommonBitIsAnd(a: bv32, b: bv32)
    ensures CommonBit(a as Word, b as Word) <==> a & b != 0
    decreases a
  {
    AndWithZero(a, b);
    if a != 0 && b != 0 {
      var h, l := Split(a);
      var k, m := Split(b);
      AndOfSplits(a, h, l, b, k, m);
      CommonBitStep(a, h, l, b, k, m);
      CommonBitIsAnd(h, k);
    }
  }

  function Range(n: nat): nat {
    if n == 0 then 1 else 0x100 * Range(n - 1)
  }

  lemma ModSum(x: int, y: int)
    ensures (x + y % WORD_RANGE) % WORD_RANGE == (x + y) % WORD_RANGE
  {
  }

  /** The value of a byte string, most significant byte first. */
  function Value(s: seq<Byte>): (v: nat)
    ensures v < Range(|s|)
  {
    if |s| == 0 then 0 else Value(s[..|s| - 1]) * 0x100 + s[|s| - 1]
  }

  lemma FourBytes()
    ensures Range(4) == WORD_RANGE
  {
  }

  function WordAt(s: seq<Byte>, at: nat): Word
    requires at + 4 <= |s|
  {
    FourBytes();
    Value(s[at..at + 4])
  }

  function WordBytes(w: Word): (s: seq<Byte>)
    ensures |s| == 4
  {
    [w / 0x100_0000, w / 0x1_0000 % 0x100, w / 0x100 % 0x100, w % 0x100]
  }

  lemma ValueOfFour(a: Byte, b: Byte, c: Byte, d: Byte)
    ensures Value([a, b, c, d]) == ((a as int * 0x100 + b) * 0x100 + c) * 0x100 + d
  {
    assert [a, b, c, d][..3] == [a, b, c] && [a, b, c][..2] == [a, b] && [a, b][..1] == [a];
    assert Value([a]) == a && Value([a, b]) == a as int * 0x100 + b;
    assert Value([a, b, c]) == (a as int * 0x100 + b) * 0x100 + c;
  }

  lemma DigitsOfFour(a: Byte, b: Byte, c: Byte, d: Byte, w: Word)
    requires w == ((a as int * 0x100 + b) * 0x100 + c) * 0x100 + d
    ensures w / 0x100_0000 == a && w / 0x1_0000 % 0x100 == b && w / 0x100 % 0x100 == c && w % 0x100 == d
  {
  }

  lemma JoinDigits(w: int, a: int, b: int, c: int, d: int)
    requires a == w / 0x100_0000 && b == w / 0x1_0000 % 0x100 && c == w / 0x100 % 0x100 && d == w % 0x100
    ensures ((a * 0x100 + b) * 0x100 + c) * 0x100 + d == w
  {
    assert w / 0x1_0000 == a * 0x100 + b && w / 0x100 == (a * 0x100 + b) * 0x100 + c;
  }

  lemma ValueOfWordBytes(w: Word)
    ensures Value(WordBytes(w)) == w
  {
    JoinDigits(w, w / 0x100_0000, w / 0x1_0000 % 0x100, w / 0x100 % 0x100, w % 0x100);
    ValueOfFour(w / 0x100_0000, w / 0x1_0000 % 0x100, w / 0x100 % 0x100, w % 0x100);
  }

  /** Reading a written word gives it back, wherever it stands. */
  lemma WordRoundTrip(before: seq<Byte>, w: Word, after: seq<Byte>)
    ensures WordAt(before + WordBytes(w) + after, |before|) == w
  {
    ValueOfWordBytes(w);
    assert (before + WordBytes(w) + after)[|before|..|before| + 4] == WordBytes(w);
  }

  /** Writing a read word gives its four bytes back. */
  lemma BytesRoundTrip(s: seq<Byte>, at: nat)
    requires at + 4 <= |s|
    ensures WordBytes(WordAt(s, at)) == s[at..at + 4]
  {
    var a, b, c, d := s[at], s[at + 1], s[at + 2], s[at + 3];
    assert s[at..at + 4] == [a, b, c, d];
    ValueOfFour(a, b, c, d);
    DigitsOfFour(a, b, c, d, WordAt(s, at));
  }

  lemma ByteByByte(s: seq<Byte>, at: nat)
    requires at + 4 <= |s|
    ensures WordAt(s, at) == ((s[at] as int * 0x100 + s[at + 1]) * 0x100 + s[at + 2]) * 0x100 + s[at + 3]
  {
    assert s[at..at + 4] == [s[at], s[at + 1], s[at + 2], s[at + 3]];
    ValueOfFour(s[at], s[at + 1], s[at + 2], s[at + 3]);
  }

  lemma NextByte(s: seq<Byte>, at: nat, i: nat)
    requires i < 3 && at + 4 <= |s|
    ensures Value(s[at..at + i + 2]) == Value(s[at..at + i + 1]) * 0x100 + s[at + i + 1]
    ensures Value(s[at..at + i + 1]) < 0x100_0000
  {
    assert s[at..at + i + 2][..i + 1] == s[at..at + i + 1];
    assert Range(1) == 0x100 && Range(2) == 0x1_0000 && Range(3) == 0x100_0000;
  }

  method ByteTo32Bits(code: seq<Byte>, at: nat) returns (temp: Word)
    requires at + 4 <= |code|
    ensures temp == WordAt(code, at)
    ensures temp == ((code[at] as int * 0x100 + code[at + 1]) * 0x100 + code[at + 2]) * 0x100 + code[at + 3]
  {
    temp := code[at];
    var i := 0;
    while i < 3
      invariant 0 <= i <= 3
      invariant temp == Value(code[at..at + i + 1])
    {
      NextByte(code, at, i);
      temp := temp * 0x100 % WORD_RANGE;
      temp := temp + code[at + i + 1];
      i := i + 1;
    }
    ByteByByte(code, at);
  }
}
