/** What the checksum is and what it detects, for bit strings of every length. */
module CrcProperties {
  import opened Crc32Table
  import opened Gf2
  import opened ShiftRegister
  import opened Crc32

  /** The checksum is the complement of the remainder of M(x) * x^32 + 0xFFFFFFFF * x^|M|, and of nothing else. */
  lemma ChecksumIsRemainder(bits: Poly, r: Poly)
    ensures IsRemainder(Plus(Ones(32) + Zeros(|bits|), bits + Zeros(32)), Generator(), r)
            <==> r == Complement(Checksum(bits))
  {
    RunIsRemainder(Generator(), Ones(32), bits, r);
    assert Complement(Checksum(bits)) == Run(Generator(), Ones(32), bits);
  }

  // ----- feeding a message in pieces

  function Flatten(chunks: seq<Poly>): Poly {
    if |chunks| == 0 then [] else chunks[0] + Flatten(chunks[1..])
  }

  function RunChunks(reg: Poly, chunks: seq<Poly>): (r: Poly)
    requires |reg| == 32
    ensures |r| == 32
    decreases |chunks|
  {
    if |chunks| == 0 then reg else RunChunks(Run(Generator(), reg, chunks[0]), chunks[1..])
  }

  lemma {:induction false} RunChunksIsRun(reg: Poly, chunks: seq<Poly>)
    requires |reg| == 32
    ensures RunChunks(reg, chunks) == Run(Generator(), reg, Flatten(chunks))
    decreases |chunks|
  {
    if |chunks| > 0 {
      RunConcat(Generator(), reg, chunks[0], Flatten(chunks[1..]));
      RunChunksIsRun(Run(Generator(), reg, chunks[0]), chunks[1..]);
    }
  }

  /** However a bit string is cut into pieces, starting at all ones, feeding the pieces and
      complementing gives its checksum. */
  lemma PiecesAgree(chunks: seq<Poly>)
    ensures Complement(RunChunks(Ones(32), chunks)) == Checksum(Flatten(chunks))
  {
    RunChunksIsRun(Ones(32), chunks);
  }

  lemma RunOneMore(m: Message, n: nat)
    requires n < |m|
    ensures Run(Generator(), Run(Generator(), Ones(32), Bits(m[..n])), ByteBits(m[n] as bv32))
         == Run(Generator(), Ones(32), Bits(m[..n + 1]))
  {
    assert m[..n + 1] == m[..n] + [m[n]];
    BitsAppend(m[..n], m[n]);
    RunConcat(Generator(), Ones(32), Bits(m[..n]), ByteBits(m[n] as bv32));
  }

  /** The streaming calls, one update for each byte of a message. */
  method StreamMessage(src: array<bv8>, srcLength: nat, crcVal: CrcWord)
    requires srcLength <= src.Length
    modifies crcVal
    ensures WordBits(crcVal.value) == Checksum(Bits(src[..srcLength]))
  {
    ghost var m := src[..srcLength];
    InitCrc(crcVal);
    ghost var reg := Ones(32);
    var offset := 0;
    while offset < srcLength
      invariant 0 <= offset <= srcLength && src[..srcLength] == m
      invariant WordBits(crcVal.value) == reg == Run(Generator(), Ones(32), Bits(m[..offset]))
    {
      RunOneMore(m, offset);
      reg := Run(Generator(), reg, ByteBits(m[offset] as bv32));
      UpdateCrc(crcVal, src[offset]);
      offset := offset + 1;
    }
    assert m[..srcLength] == m;
    FinalCrc(crcVal);
  }

  /** The word the streaming calls leave is the very word that the one-shot call writes. */
  method StreamingAgrees(src: array<bv8>, srcLength: nat) returns (oneShot: bv32, streamed: bv32)
    requires srcLength <= src.Length && srcLength < 0x1_0000_0000
    ensures oneShot == streamed && WordBits(oneShot) == Checksum(Bits(src[..srcLength]))
  {
    var a := new CrcWord();
    var b := new CrcWord();
    GetCrc(src, srcLength, a);
    StreamMessage(src, srcLength, b);
    oneShot, streamed := a.value, b.value;
    WordBitsInjective(oneShot, streamed);
  }

  /** The checksum of a sum of three messages is the sum of their checksums. */
  lemma ChecksumAffine(a: Poly, b: Poly, c: Poly)
    requires |a| == |b| == |c|
    ensures Checksum(Plus(Plus(a, b), c)) == Plus(Plus(Checksum(a), Checksum(b)), Checksum(c))
  {
    var g, ones := Generator(), Ones(32);
    RunPlus(g, ones, a, ones, b);
    RunPlus(g, Plus(ones, ones), Plus(a, b), ones, c);
    assert Plus(Plus(ones, ones), ones) == ones;
  }

  // ----- detection

  /** Messages of one length collide exactly when the generator divides their difference. */
  lemma CollisionIff(a: Poly, b: Poly)
    requires |a| == |b|
    ensures Checksum(a) == Checksum(b) <==> Divides(Generator(), Plus(a, b))
  {
    var x, y := Run(Generator(), Ones(32), a), Run(Generator(), Ones(32), b);
    CollisionIffDivisible(Generator(), Ones(32), a, b);
    assert Complement(Complement(x)) == x && Complement(Complement(y)) == y;
  }

  /** Two different messages of one length that agree outside some 32 consecutive bits never collide. */
  lemma BurstDetected(a: Poly, b: Poly, at: nat)
    requires |a| == |b| && a != b
    requires forall i :: 0 <= i < |a| && !(at <= i < at + 32) ==> a[i] == b[i]
    ensures Checksum(a) != Checksum(b)
  {
    CollisionIff(a, b);
    var d := Plus(a, b);
    var i :| 0 <= i < |a| && a[i] != b[i];
    assert d[i] && d != Zeros(|d|);
    if Checksum(a) == Checksum(b) {
      ShortBurstIndivisible(Generator(), d, at);
    }
  }

  lemma PlusTwice(a: Poly, d: Poly)
    requires |a| == |d|
    ensures Plus(a, Plus(a, d)) == d
  {
  }

  /** The window of 32 cannot be widened: laying the generator's 33 coefficients over any part
      of any message changes the message and not its checksum. */
  lemma LongerBurstUnseen(a: Poly, at: nat)
    requires at + 33 <= |a|
    ensures var b := Plus(a, Zeros(at) + Generator() + Zeros(|a| - at - 33));
            a != b && Checksum(a) == Checksum(b)
  {
    var g, rest := Generator(), |a| - at - 33;
    var d := Zeros(at) + g + Zeros(rest);
    var b := Plus(a, d);
    assert d[at] && b[at] != a[at];
    PlusTwice(a, d);
    TimesPower(g, at, rest);
    CollisionIff(a, b);
  }

  // ----- the residue

  lemma {:induction false} StepsSplit(s: bv32, m: nat, n: nat)
    ensures Steps(s, m + n) == Steps(Steps(s, m), n)
  {
    if n > 0 {
      StepsSplit(s, m, n - 1);
    }
  }

  lemma ResidueSteps()
    ensures Steps(0xFFFF_FFFF, 32) == 0xC704_DD7B
  {
    var s: bv32 := 0xFFFF_FFFF;
    StepsSplit(s, 24, 8);
    StepsSplit(s, 16, 8);
    StepsSplit(s, 8, 8);
    Step8IsSteps(s);
    Step8IsSteps(0x4E08_BFB4);
    Step8IsSteps(0x00B7_647D);
    Step8IsSteps(0xB764_7D00);
  }

  /** What the register holds after a message and its checksum, 0xC704DD7B. */
  function Residue(): (r: Poly)
    ensures |r| == 32
  {
    WordBits(0xC704_DD7B)
  }

  // Feeding a register its own complement leaves the residue, whatever the register held.
  lemma ComplementLeavesResidue(reg: Poly)
    requires |reg| == 32
    ensures Run(Generator(), reg, Complement(reg)) == Residue()
  {
    FoldInFirst(Generator(), reg, Complement(reg));
    assert Plus(reg, Complement(reg) + Zeros(0)) == Ones(32);
    AllOnes();
    StepsIsRun(0xFFFF_FFFF, 32);
    ResidueSteps();
  }

  /** A message with 32 trailing bits leaves 0xC704DD7B in the register, before the final
      complement, exactly when the trailer is the message's checksum, high bit first. */
  lemma ResidueIff(bits: Poly, trailer: Poly)
    requires |trailer| == 32
    ensures Run(Generator(), Ones(32), bits + trailer) == Residue() <==> trailer == Checksum(bits)
  {
    var g, reg := Generator(), Run(Generator(), Ones(32), bits);
    RunConcat(g, Ones(32), bits, trailer);
    ComplementLeavesResidue(reg);
    if Run(g, reg, trailer) == Residue() {
      var c := Checksum(bits);
      var d := Plus(trailer, c);
      CollisionIffDivisible(g, reg, trailer, c);
      ShortBurstIndivisible(g, d, 0);
      forall i | 0 <= i < 32 ensures trailer[i] == c[i] { assert !d[i]; }
    }
  }

  lemma {:induction false} BitsConcat(m: Message, t: Message)
    ensures Bits(m + t) == Bits(m) + Bits(t)
  {
    if |t| == 0 {
      assert m + t == m;
    } else {
      var n := |t| - 1;
      assert (m + t)[..|m| + n] == m + t[..n];
      BitsConcat(m, t[..n]);
    }
  }

  /** The same in bytes: of all four-byte trailers, exactly the one that spells the checksum
      most significant byte first leaves the residue. */
  lemma ResidueOfBytes(m: Message, t: Message)
    requires |t| == 4
    ensures Run(Generator(), Ones(32), Bits(m + t)) == Residue() <==> Bits(t) == Checksum(Bits(m))
  {
    BitsConcat(m, t);
    ResidueIff(Bits(m), Bits(t));
  }

  /** The four bytes spell the word, most significant byte first. */
  predicate Spells(t: Message, w: bv32) {
    && |t| == 4
    && t[0] as bv32 == w >> 24 && t[1] as bv32 == (w >> 16) & 0xFF
    && t[2] as bv32 == (w >> 8) & 0xFF && t[3] as bv32 == w & 0xFF
  }

  lemma FirstOctet(w: bv32)
    ensures (w >> 24) << 24 == w & 0xFF00_0000
  {
  }

  lemma SecondOctet(w: bv32, w8: bv32)
    requires w8 == w << 8
    ensures ((w >> 16) & 0xFF) << 24 == w8 & 0xFF00_0000
  {
  }

  lemma ThirdOctet(w: bv32, w8: bv32, w16: bv32)
    requires w8 == w << 8 && w16 == w8 << 8
    ensures ((w >> 8) & 0xFF) << 24 == w16 & 0xFF00_0000
  {
  }

  lemma LastOctet(w: bv32, w8: bv32, w16: bv32, w24: bv32)
    requires w8 == w << 8 && w16 == w8 << 8 && w24 == w16 << 8
    ensures (w & 0xFF) << 24 == w24 & 0xFF00_0000
  {
  }

  lemma OctetBits(b: bv32, w: bv32, high: bv32)
    requires high == b << 24 && high == w & 0xFF00_0000
    ensures ByteBits(b) == WordBits(w)[..8]
  {
    forall i | 0 <= i < 8 ensures Bit(high, i) == Bit(w, i) {
      HighBit(w, high, i);
    }
  }

  lemma ShiftedPolys(p: Poly, p8: Poly, p16: Poly, p24: Poly)
    requires |p| == |p8| == |p16| == |p24| == 32
    requires p8 == p[8..] + Zeros(8) && p16 == p8[8..] + Zeros(8) && p24 == p16[8..] + Zeros(8)
    ensures p8[..8] == p[8..16] && p16[..8] == p[16..24] && p24[..8] == p[24..32]
  {
  }

  lemma OctetsOfWord(w: bv32, w8: bv32)
    requires w8 == w << 8
    ensures WordBits(w8)[..8] == WordBits(w)[8..16] && WordBits(w8 << 8)[..8] == WordBits(w)[16..24]
    ensures WordBits((w8 << 8) << 8)[..8] == WordBits(w)[24..32]
  {
    var w16 := w8 << 8;
    var w24 := w16 << 8;
    WordBitsShift8(w, w8);
    WordBitsShift8(w8, w16);
    WordBitsShift8(w16, w24);
    ShiftedPolys(WordBits(w), WordBits(w8), WordBits(w16), WordBits(w24));
  }

  function Octet(b: bv8): Poly {
    ByteBits(b as bv32)
  }

  function Octets(t: Message): (os: seq<Poly>)
    ensures |os| == |t| && forall i :: 0 <= i < |t| ==> os[i] == Octet(t[i])
  {
    seq(|t|, i requires 0 <= i < |t| => Octet(t[i]))
  }

  lemma FirstByte(b: bv32, w: bv32)
    requires b == w >> 24
    ensures ByteBits(b) == WordBits(w)[0..8]
  {
    FirstOctet(w);
    OctetBits(b, w, b << 24);
  }

  lemma SecondByte(b: bv32, w: bv32, w8: bv32)
    requires b == (w >> 16) & 0xFF && w8 == w << 8
    ensures ByteBits(b) == WordBits(w)[8..16]
  {
    SecondOctet(w, w8);
    OctetBits(b, w8, b << 24);
    OctetsOfWord(w, w8);
  }

  lemma ThirdByte(b: bv32, w: bv32, w8: bv32, w16: bv32)
    requires b == (w >> 8) & 0xFF && w8 == w << 8 && w16 == w8 << 8
    ensures ByteBits(b) == WordBits(w)[16..24]
  {
    ThirdOctet(w, w8, w16);
    OctetBits(b, w16, b << 24);
    OctetsOfWord(w, w8);
  }

  lemma LastByte(b: bv32, w: bv32, w8: bv32, w16: bv32, w24: bv32)
    requires b == w & 0xFF && w8 == w << 8 && w16 == w8 << 8 && w24 == w16 << 8
    ensures ByteBits(b) == WordBits(w)[24..32]
  {
    LastOctet(w, w8, w16, w24);
    OctetBits(b, w24, b << 24);
    OctetsOfWord(w, w8);
  }

  lemma OctetsSpelt(a: bv32, b: bv32, c: bv32, d: bv32, w: bv32)
    requires a == w >> 24 && b == (w >> 16) & 0xFF && c == (w >> 8) & 0xFF && d == w & 0xFF
    ensures ByteBits(a) == WordBits(w)[0..8] && ByteBits(b) == WordBits(w)[8..16]
    ensures ByteBits(c) == WordBits(w)[16..24] && ByteBits(d) == WordBits(w)[24..32]
  {
    var w8 := w << 8;
    var w16 := w8 << 8;
    var w24 := w16 << 8;
    FirstByte(a, w);
    SecondByte(b, w, w8);
    ThirdByte(c, w, w8, w16);
    LastByte(d, w, w8, w16, w24);
  }

  lemma SpeltOctets(t: Message, w: bv32)
    requires Spells(t, w)
    ensures ByteBits(t[0] as bv32) == WordBits(w)[0..8] && ByteBits(t[1] as bv32) == WordBits(w)[8..16]
    ensures ByteBits(t[2] as bv32) == WordBits(w)[16..24] && ByteBits(t[3] as bv32) == WordBits(w)[24..32]
  {
    OctetsSpelt(t[0] as bv32, t[1] as bv32, t[2] as bv32, t[3] as bv32, w);
  }

  lemma OctetBytes(t: Message)
    requires |t| == 4
    ensures Octets(t)
            == [ByteBits(t[0] as bv32), ByteBits(t[1] as bv32), ByteBits(t[2] as bv32), ByteBits(t[3] as bv32)]
  {
  }

  lemma OctetCases(os: seq<Poly>, p: Poly, n: nat)
    requires |os| == 4 && |p| == 32 && n < 4
    requires os[0] == p[0..8] && os[1] == p[8..16] && os[2] == p[16..24] && os[3] == p[24..32]
    ensures os[n] == p[8 * n..8 * n + 8]
  {
    assert n == 0 || n == 1 || n == 2 || n == 3;
  }

  lemma BitsUpTo(t: Message, n: nat)
    requires n < |t|
    ensures Bits(t[..n + 1]) == Bits(t[..n]) + Octets(t)[n]
  {
    assert t[..n + 1] == t[..n] + [t[n]];
    BitsAppend(t[..n], t[n]);
  }

  lemma JoinOctet(p: Poly, n: nat)
    requires 8 * n + 8 <= |p|
    ensures p[..8 * n] + p[8 * n..8 * n + 8] == p[..8 * (n + 1)]
  {
  }

  lemma {:induction false} BitsByOctet(t: Message, p: Poly, n: nat)
    requires n <= |t| && |p| == 8 * |t| && forall k: nat :: k < n ==> Octets(t)[k] == p[8 * k..8 * k + 8]
    ensures Bits(t[..n]) == p[..8 * n]
  {
    if n > 0 {
      BitsByOctet(t, p, n - 1);
      BitsUpTo(t, n - 1);
      JoinOctet(p, n - 1);
    }
  }

  /** The bytes that spell a word have its bits. */
  lemma SpeltBits(t: Message, w: bv32)
    requires Spells(t, w)
    ensures Bits(t) == WordBits(w)
  {
    var os, p := Octets(t), WordBits(w);
    OctetBytes(t);
    SpeltOctets(t, w);
    forall n: nat | n < 4 ensures os[n] == p[8 * n..8 * n + 8] {
      OctetCases(os, p, n);
    }
    BitsByOctet(t, p, |t|);
    assert t[..|t|] == t && p[..8 * |t|] == p;
  }

  /** In terms of the word c that the engine writes for a message: appending the bytes of a word
      leaves the residue exactly when that word is c. */
  lemma ResidueOfWord(m: Message, c: bv32, t: Message, w: bv32)
    requires WordBits(c) == Checksum(Bits(m)) && Spells(t, w)
    ensures Run(Generator(), Ones(32), Bits(m + t)) == Residue() <==> w == c
  {
    ResidueOfBytes(m, t);
    SpeltBits(t, w);
    if WordBits(w) == WordBits(c) {
      WordBitsInjective(w, c);
    }
  }

  /** Bytes are told apart by their bits, so the results above are about byte strings as well. */
  lemma {:induction false} BitsInjective(a: Message, b: Message)
    requires |a| == |b| && Bits(a) == Bits(b)
    ensures a == b
  {
    if |a| > 0 {
      var n := |a| - 1;
      BitsLast(a);
      BitsLast(b);
      ByteBitsInjective(a[n], b[n]);
      BitsInjective(a[..n], b[..n]);
      assert a == a[..n] + [a[n]] && b == b[..n] + [b[n]];
    }
  }

  lemma BitsLast(m: Message)
    requires |m| > 0
    ensures var n := |m| - 1;
            Bits(m)[..8 * n] == Bits(m[..n]) && Bits(m)[8 * n..] == ByteBits(m[n] as bv32)
  {
  }

  lemma ByteBitsInjective(x: bv8, y: bv8)
    requires ByteBits(x as bv32) == ByteBits(y as bv32)
    ensures x == y
  {
    var v, w := (x as bv32) << 24, (y as bv32) << 24;
    WordBitsHigh(x as bv32, v);
    WordBitsHigh(y as bv32, w);
    WordBitsInjective(v, w);
    HighByteInjective(x, y);
  }

  lemma HighByteInjective(x: bv8, y: bv8)
    requires (x as bv32) << 24 == (y as bv32) << 24
    ensures x == y
  {
  }
}
