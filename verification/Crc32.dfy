/** The CRC engine: the one-shot loop and the streaming calls, refined through a
    bit-serial register down to division of polynomials over GF(2). */
module Crc32 {
  import opened Crc32Table
  import opened Gf2
  import opened ShiftRegister

  type Message = seq<bv8>

  /** The table index: the register's high byte against the message byte. */
  function TableIndex(s: bv32, b: bv8): (i: bv32)
    ensures i < 256
  {
    (s >> 24) ^ (b as bv32)
  }

  function Fold(entry: bv32, s: bv32): bv32 {
    entry ^ (s << 8)
  }

  // ----- messages and words as polynomials

  /** Bit i of a word, counted from the top. */
  predicate Bit(w: bv32, i: nat)
    decreases i
  {
    if i == 0 then Top(w) else Bit(w << 1, i - 1)
  }

  function WordBits(w: bv32): (p: Poly)
    ensures |p| == 32 && forall i :: 0 <= i < 32 ==> p[i] == Bit(w, i)
  {
    seq(32, i requires 0 <= i => Bit(w, i))
  }

  /** The eight bits of a byte: the leading bits of the word with that high byte. */
  function ByteBits(b: bv32): (p: Poly)
    ensures |p| == 8 && forall i :: 0 <= i < 8 ==> p[i] == Bit(b << 24, i)
  {
    WordBits(b << 24)[..8]
  }

  function Bits(m: Message): (p: Poly)
    ensures |p| == 8 * |m|
  {
    if |m| == 0 then [] else Bits(m[..|m| - 1]) + ByteBits(m[|m| - 1] as bv32)
  }

  /** x^32 + 0x04C11DB7. */
  function Generator(): (g: Poly)
    ensures |g| == 33 && IsGenerator(g)
  {
    LastBit(GENERATOR);
    [true] + WordBits(GENERATOR)
  }

  lemma ShiftTwice(w: bv32)
    ensures (w << 1) << 1 == w << 2 && (w << 2) << 2 == w << 4 && (w << 4) << 4 == w << 8
  {
  }

  lemma BitShift2(w: bv32, w2: bv32, i: nat)
    requires w2 == w << 2
    ensures Bit(w2, i) == Bit(w, i + 2)
  {
  }

  lemma BitShift4(w: bv32, w4: bv32, i: nat)
    requires w4 == w << 4
    ensures Bit(w4, i) == Bit(w, i + 4)
  {
    ShiftTwice(w);
    BitShift2(w, w << 2, i + 2);
    BitShift2(w << 2, w4, i);
  }

  lemma BitShift8(w: bv32, w8: bv32, i: nat)
    requires w8 == w << 8
    ensures Bit(w8, i) == Bit(w, i + 8)
  {
    ShiftTwice(w);
    BitShift4(w, w << 4, i + 4);
    BitShift4(w << 4, w8, i);
  }

  lemma {:induction false} ZeroBits(i: nat)
    ensures !Bit(0, i)
  {
    if i > 0 {
      ZeroBits(i - 1);
    }
  }

  lemma ShiftedOut(w: bv32, w8: bv32, w16: bv32, w24: bv32)
    requires w8 == w << 8 && w16 == w8 << 8 && w24 == w16 << 8
    ensures w24 << 8 == 0 && w24 << 7 == w << 31
  {
  }

  lemma BitsEnd(w: bv32, i: nat)
    requires i >= 32
    ensures !Bit(w, i)
  {
    var w8 := w << 8; var w16 := w8 << 8; var w24 := w16 << 8;
    BitShift8(w, w8, i - 8);
    BitShift8(w8, w16, i - 16);
    BitShift8(w16, w24, i - 24);
    ShiftedOut(w, w8, w16, w24);
    BitShift8(w24, 0, i - 32);
    ZeroBits(i - 32);
  }

  // The first eight bits, each brought to the top by its own shift.
  lemma FirstBits(w: bv32)
    ensures Bit(w, 0) == Top(w) && Bit(w, 1) == Top(w << 1)
    ensures Bit(w, 2) == Top(w << 2) && Bit(w, 3) == Top((w << 2) << 1)
    ensures Bit(w, 4) == Top(w << 4) && Bit(w, 5) == Top((w << 4) << 1)
    ensures Bit(w, 6) == Top((w << 4) << 2) && Bit(w, 7) == Top(((w << 4) << 2) << 1)
  {
  }

  lemma LastBit(w: bv32)
    ensures Bit(w, 31) == (w & 1 != 0)
  {
    var w8 := w << 8; var w16 := w8 << 8; var w24 := w16 << 8;
    BitShift8(w, w8, 23);
    BitShift8(w8, w16, 15);
    BitShift8(w16, w24, 7);
    FirstBits(w24);
    LastToTop(w, w8, w16, w24);
  }

  lemma LastToTop(w: bv32, w8: bv32, w16: bv32, w24: bv32)
    requires w8 == w << 8 && w16 == w8 << 8 && w24 == w16 << 8
    ensures Top(((w24 << 4) << 2) << 1) == (w & 1 != 0)
  {
  }

  lemma XorUnderShift(v: bv32, w: bv32, x: bv32)
    requires x == v ^ w
    ensures x << 1 == (v << 1) ^ (w << 1) && Top(x) == (Top(v) != Top(w))
  {
  }

  lemma XorStep(v: bv32, w: bv32, x: bv32, i: nat)
    requires i > 0 && Bit(x << 1, i - 1) == (Bit(v << 1, i - 1) != Bit(w << 1, i - 1))
    ensures Bit(x, i) == (Bit(v, i) != Bit(w, i))
  {
  }

  lemma {:induction false} BitXor(v: bv32, w: bv32, x: bv32, i: nat)
    requires x == v ^ w
    ensures Bit(x, i) == (Bit(v, i) != Bit(w, i))
    decreases i
  {
    XorUnderShift(v, w, x);
    if i > 0 {
      BitXor(v << 1, w << 1, x << 1, i - 1);
      XorStep(v, w, x, i);
    }
  }

  lemma WordBitsXor(v: bv32, w: bv32, x: bv32)
    requires x == v ^ w
    ensures WordBits(x) == Plus(WordBits(v), WordBits(w))
  {
    forall i | 0 <= i < 32 ensures Bit(x, i) == (Bit(v, i) != Bit(w, i)) {
      BitXor(v, w, x, i);
    }
  }

  lemma WordBitsShift1(w: bv32, w1: bv32)
    requires w1 == w << 1
    ensures WordBits(w1) == WordBits(w)[1..] + [false]
  {
    forall i | 0 <= i < 32 ensures Bit(w1, i) == Bit(w, i + 1) {}
    BitsEnd(w, 32);
  }

  lemma WordBitsShift8(w: bv32, w8: bv32)
    requires w8 == w << 8
    ensures WordBits(w8) == WordBits(w)[8..] + Zeros(8)
  {
    forall i | 0 <= i < 32 ensures Bit(w8, i) == Bit(w, i + 8) && (i >= 24 ==> !Bit(w8, i)) {
      BitShift8(w, w8, i);
      if i >= 24 { BitsEnd(w, i + 8); }
    }
  }

  lemma WordBitsHigh(b: bv32, w: bv32)
    requires w == b << 24
    ensures WordBits(w) == ByteBits(b) + Zeros(24)
  {
    HighOnly(b, w);
    forall i | 8 <= i < 32 ensures !Bit(w, i) {
      BitShift8(w, 0, i - 8);
      ZeroBits(i - 8);
    }
  }

  lemma HighOnly(b: bv32, w: bv32)
    requires w == b << 24
    ensures w << 8 == 0
  {
  }

  lemma ZeroOctet(w: bv32)
    requires forall i :: 0 <= i < 8 ==> !Bit(w, i)
    ensures w & 0xFF00_0000 == 0
  {
    assert !Bit(w, 0) && !Bit(w, 1) && !Bit(w, 2) && !Bit(w, 3) && !Bit(w, 4) && !Bit(w, 5) && !Bit(w, 6) && !Bit(w, 7);
    FirstBits(w);
  }

  lemma ZeroOctets(w: bv32, w8: bv32, w16: bv32, w24: bv32)
    requires w8 == w << 8 && w16 == w8 << 8 && w24 == w16 << 8
    requires w & 0xFF00_0000 == 0 && w8 & 0xFF00_0000 == 0 && w16 & 0xFF00_0000 == 0 && w24 & 0xFF00_0000 == 0
    ensures w == 0
  {
  }

  lemma ZeroWord(w: bv32)
    requires WordBits(w) == Zeros(32)
    ensures w == 0
  {
    var w8 := w << 8; var w16 := w8 << 8; var w24 := w16 << 8;
    forall i | 0 <= i < 32 ensures !Bit(w, i) { assert WordBits(w)[i] == Zeros(32)[i]; }
    forall i | 0 <= i < 24 ensures !Bit(w8, i) { BitShift8(w, w8, i); }
    forall i | 0 <= i < 16 ensures !Bit(w16, i) { BitShift8(w8, w16, i); }
    forall i | 0 <= i < 8 ensures !Bit(w24, i) { BitShift8(w16, w24, i); }
    ZeroOctet(w);
    ZeroOctet(w8);
    ZeroOctet(w16);
    ZeroOctet(w24);
    ZeroOctets(w, w8, w16, w24);
  }

  lemma XorZero(v: bv32, w: bv32, x: bv32)
    requires x == v ^ w && x == 0
    ensures v == w
  {
  }

  /** Words with the same bits are the same word. */
  lemma WordBitsInjective(v: bv32, w: bv32)
    requires WordBits(v) == WordBits(w)
    ensures v == w
  {
    var x := v ^ w;
    WordBitsXor(v, w, x);
    assert Plus(WordBits(v), WordBits(w)) == Zeros(32);
    ZeroWord(x);
    XorZero(v, w, x);
  }

  // ----- the table-driven engine refines the bit-serial register

  lemma StepIsShift(s: bv32, next: bv32)
    requires next == Step(s)
    ensures WordBits(next) == Shift(Generator(), WordBits(s), false)
  {
    var s1 := s << 1;
    assert Top(s) == WordBits(s)[0];
    WordBitsShift1(s, s1);
    if Top(s) {
      WordBitsXor(s1, GENERATOR, next);
    }
  }

  lemma RunStep(reg: Poly, n: nat, s: bv32)
    requires |reg| == 32 && WordBits(s) == Run(Generator(), reg, Zeros(n))
    ensures WordBits(Step(s)) == Run(Generator(), reg, Zeros(n + 1))
  {
    assert Zeros(n + 1)[..n] == Zeros(n);
    StepIsShift(s, Step(s));
  }

  lemma {:induction false} StepsIsRun(s: bv32, n: nat)
    ensures WordBits(Steps(s, n)) == Run(Generator(), WordBits(s), Zeros(n))
  {
    if n > 0 {
      StepsIsRun(s, n - 1);
      RunStep(WordBits(s), n - 1, Steps(s, n - 1));
    }
  }

  lemma IndexWord(s: bv32, b: bv32, i: bv32)
    requires i == (s >> 24) ^ b
    ensures i << 24 == (s & 0xFF00_0000) ^ (b << 24)
  {
  }

  lemma LowTops(low: bv32)
    requires low & 0xFF00_0000 == 0
    ensures !Top(low) && !Top(low << 1) && !Top(low << 2) && !Top((low << 2) << 1)
    ensures !Top(low << 4) && !Top((low << 4) << 1) && !Top((low << 4) << 2) && !Top(((low << 4) << 2) << 1)
  {
  }

  lemma LowOctet(low: bv32, i: nat)
    requires low & 0xFF00_0000 == 0 && i < 8
    ensures !Bit(low, i)
  {
    FirstBits(low);
    LowTops(low);
  }

  lemma HighAndLow(s: bv32, high: bv32, low: bv32)
    requires high == s & 0xFF00_0000 && low == s & 0x00FF_FFFF
    ensures s == high ^ low && low & 0xFF00_0000 == 0
  {
  }

  lemma HighBit(s: bv32, high: bv32, i: nat)
    requires i < 8 && high == s & 0xFF00_0000
    ensures Bit(high, i) == Bit(s, i)
  {
    var low := s & 0x00FF_FFFF;
    HighAndLow(s, high, low);
    BitXor(high, low, s, i);
    LowOctet(low, i);
  }

  lemma IndexBits(s: bv32, b: bv32, i: bv32)
    requires i == (s >> 24) ^ b
    ensures ByteBits(i) == Plus(WordBits(s)[..8], ByteBits(b))
  {
    IndexWord(s, b, i);
    MixedBits(i << 24, s, s & 0xFF00_0000, b << 24);
    var x, c := i << 24, b << 24;
    assert ByteBits(i) == WordBits(x)[..8] && ByteBits(b) == WordBits(c)[..8];
  }

  lemma MixedBits(x: bv32, s: bv32, high: bv32, c: bv32)
    requires high == s & 0xFF00_0000 && x == high ^ c
    ensures WordBits(x)[..8] == Plus(WordBits(s)[..8], WordBits(c)[..8])
  {
    forall i | 0 <= i < 8 ensures Bit(x, i) == (Bit(s, i) != Bit(c, i)) {
      BitXor(high, c, x, i);
      HighBit(s, high, i);
    }
  }

  lemma FoldBits(entry: bv32, s: bv32, x: bv32)
    requires x == Fold(entry, s)
    ensures WordBits(x) == Plus(WordBits(entry), WordBits(s)[8..] + Zeros(8))
  {
    var s8 := s << 8;
    WordBitsXor(entry, s8, x);
    WordBitsShift8(s, s8);
  }

  /** One table step is eight clocks of the bit-serial register fed with the byte's bits. */
  lemma TableStepIsRun(s: bv32, b: bv8, entry: bv32)
    requires entry == Steps(TableIndex(s, b) << 24, 8)
    ensures WordBits(Fold(entry, s)) == Run(Generator(), WordBits(s), ByteBits(b as bv32))
  {
    TableStepOfWord(s, b as bv32, TableIndex(s, b), TableIndex(s, b) << 24, entry, Fold(entry, s));
  }

  lemma TableStepOfWord(s: bv32, b: bv32, i: bv32, high: bv32, entry: bv32, next: bv32)
    requires i == (s >> 24) ^ b && high == i << 24 && entry == Steps(high, 8) && next == Fold(entry, s)
    ensures WordBits(next) == Run(Generator(), WordBits(s), ByteBits(b))
  {
    IndexBits(s, b, i);
    StepsIsRun(high, 8);
    WordBitsHigh(i, high);
    FoldBits(entry, s, next);
    TableStep(Generator(), WordBits(s), ByteBits(b), ByteBits(i), WordBits(entry));
  }

  lemma OnesOctet(w: bv32, i: nat)
    requires w & 0xFF00_0000 == 0xFF00_0000 && i < 8
    ensures Bit(w, i)
  {
    FirstBits(w);
    OnesTop(w);
  }

  lemma OnesTop(w: bv32)
    requires w & 0xFF00_0000 == 0xFF00_0000
    ensures Top(w) && Top(w << 1) && Top(w << 2) && Top((w << 2) << 1)
    ensures Top(w << 4) && Top((w << 4) << 1) && Top((w << 4) << 2) && Top(((w << 4) << 2) << 1)
  {
  }

  lemma AllOnes()
    ensures WordBits(0xFFFF_FFFF) == Ones(32)
  {
    var w: bv32, w8: bv32, w16: bv32, w24: bv32 := 0xFFFF_FFFF, 0xFFFF_FF00, 0xFFFF_0000, 0xFF00_0000;
    forall i | 0 <= i < 8 ensures Bit(w24, i) { OnesOctet(w24, i); }
    forall i | 0 <= i < 16 ensures Bit(w16, i) { if i < 8 { OnesOctet(w16, i); } else { BitShift8(w16, w24, i - 8); } }
    forall i | 0 <= i < 24 ensures Bit(w8, i) { if i < 8 { OnesOctet(w8, i); } else { BitShift8(w8, w16, i - 8); } }
    forall i | 0 <= i < 32 ensures Bit(w, i) { if i < 8 { OnesOctet(w, i); } else { BitShift8(w, w8, i - 8); } }
  }

  lemma WordBitsNot(w: bv32, x: bv32)
    requires x == !w
    ensures WordBits(x) == Complement(WordBits(w))
  {
    AllOnes();
    NotIsXor(w, x);
    WordBitsXor(w, 0xFFFF_FFFF, x);
    assert Plus(WordBits(w), Ones(32)) == Complement(WordBits(w));
  }

  lemma NotIsXor(w: bv32, x: bv32)
    requires x == !w
    ensures x == w ^ 0xFFFF_FFFF
  {
  }

  // ----- the engine

  /** The checksum of a bit string: the complement of the register started at all ones. */
  function Checksum(bits: Poly): (c: Poly)
    ensures |c| == 32
  {
    Complement(Run(Generator(), Ones(32), bits))
  }

  /** The word behind the pointer that the source's functions take. */
  class CrcWord {
    var value: bv32

    constructor ()
      ensures value == 0
    {
      value := 0;
    }
  }

  lemma BitsAppend(m: Message, b: bv8)
    ensures Bits(m + [b]) == Bits(m) + ByteBits(b as bv32)
  {
  }

  lemma RunByte(s: bv32, m: Message, b: bv8, entry: bv32)
    requires WordBits(s) == Run(Generator(), Ones(32), Bits(m))
    requires entry == Steps(TableIndex(s, b) << 24, 8)
    ensures WordBits(Fold(entry, s)) == Run(Generator(), Ones(32), Bits(m + [b]))
  {
    TableStepIsRun(s, b, entry);
    BitsAppend(m, b);
    RunConcat(Generator(), Ones(32), Bits(m), ByteBits(b as bv32));
  }

  method GetCrc(src: array<bv8>, srcLength: nat, crcVal: CrcWord)
    requires srcLength <= src.Length && srcLength < 0x1_0000_0000
    modifies crcVal
    ensures WordBits(crcVal.value) == Checksum(Bits(src[..srcLength]))
  {
    var crcState: bv32 := 0xFFFF_FFFF;
    AllOnes();
    var offset := 0;
    while offset < srcLength
      invariant 0 <= offset <= srcLength
      invariant WordBits(crcState) == Run(Generator(), Ones(32), Bits(src[..offset]))
    {
      var entry := LookUp(TableIndex(crcState, src[offset]));
      RunByte(crcState, src[..offset], src[offset], entry);
      assert src[..offset + 1] == src[..offset] + [src[offset]];
      crcState := Fold(entry, crcState);
      offset := offset + 1;
    }
    WordBitsNot(crcState, !crcState);
    crcVal.value := !crcState;
  }

  method InitCrc(crcVal: CrcWord)
    modifies crcVal
    ensures WordBits(crcVal.value) == Ones(32)
  {
    AllOnes();
    crcVal.value := 0xFFFF_FFFF;
  }

  /** One more byte shifts its eight bits into whatever the register holds. */
  method UpdateCrc(crcVal: CrcWord, charVal: bv8)
    modifies crcVal
    ensures WordBits(crcVal.value) == Run(Generator(), WordBits(old(crcVal.value)), ByteBits(charVal as bv32))
  {
    var entry := LookUp(TableIndex(crcVal.value, charVal));
    TableStepIsRun(crcVal.value, charVal, entry);
    crcVal.value := Fold(entry, crcVal.value);
  }

  method FinalCrc(crcVal: CrcWord)
    modifies crcVal
    ensures WordBits(crcVal.value) == Complement(WordBits(old(crcVal.value)))
  {
    ghost var was := crcVal.value;
    crcVal.value := !crcVal.value;
    WordBitsNot(was, crcVal.value);
  }
}
