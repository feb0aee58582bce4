/**
 The checksum in 32-bit machine arithmetic, with the constants of
 CyclicRedundancyCheck.cpp written as numbers, and the values that follow from them.
 */
module CrcMachine {
  import opened Bits
  import opened Crc
  import P = Png

  // ---- machine words as bits --------------------------------------------------------

  predicate Odd(x: bv32) { x & 1 == 1 }

  function Half(x: bv32): bv32 { x >> 1 }

  function Exclusive(x: bv32, y: bv32): bv32 { x ^ y }

  /** The lowest bits of x, least significant first. */
  function LowBits(x: bv32, width: nat): (r: seq<bool>)
    ensures |r| == width
    decreases width
  {
    if width == 0 then [] else [Odd(x)] + LowBits(Half(x), width - 1)
  }

  function WordOf(x: bv32): Word { LowBits(x, 32) }

  lemma XorBits(x: bv32, y: bv32)
    ensures Half(Exclusive(x, y)) == Exclusive(Half(x), Half(y))
    ensures Odd(Exclusive(x, y)) <==> (Odd(x) != Odd(y))
  {
  }

  lemma XorCons(a: bool, b: bool, c: seq<bool>, d: seq<bool>)
    requires |c| == |d|
    ensures Xor([a] + c, [b] + d) == [a != b] + Xor(c, d)
  {
  }

  lemma {:induction false} LowBitsXor(x: bv32, y: bv32, width: nat)
    ensures LowBits(Exclusive(x, y), width) == Xor(LowBits(x, width), LowBits(y, width))
    decreases width
  {
    hide Odd, Half, Exclusive, Xor;
    if width == 0 {
      NothingXored();
    } else {
      XorBits(x, y);
      LowBitsXor(Half(x), Half(y), width - 1);
      XorCons(Odd(x), Odd(y), LowBits(Half(x), width - 1), LowBits(Half(y), width - 1));
    }
  }

  lemma NothingXored()
    ensures Xor([], []) == []
  {
  }

  /** The lowest bits set, the others clear. */
  function Mask(width: nat): bv32 {
    if width == 0 then 0 else (Mask(width - 1) << 1) | 1
  }

  predicate Fits(x: bv32, width: nat) { x & !Mask(width) == 0 }

  lemma HalfFits(x: bv32, width: nat)
    requires width > 0 && Fits(x, width)
    ensures Fits(Half(x), width - 1)
  {
  }

  lemma NothingFits(x: bv32)
    requires Fits(x, 0)
    ensures !Odd(x)
  {
  }

  lemma EverythingFits(x: bv32)
    ensures Fits(x, 32)
  {
    assert Mask(8) == 0xFF;
    assert Mask(16) == 0xFFFF;
    assert Mask(24) == 0xFF_FFFF;
    assert Mask(32) == 0xFFFF_FFFF;
  }

  /** Shifting a number that fits brings a zero in at the top. */
  lemma {:induction false} LowBitsShift(x: bv32, width: nat)
    requires width > 0 && Fits(x, width)
    ensures LowBits(Half(x), width) == LowBits(x, width)[1..] + [false]
    decreases width
  {
    HalfFits(x, width);
    if width == 1 {
      NothingFits(Half(x));
      hide Odd, Half, Fits;
      OneBitLeft(Half(x));
    } else {
      hide Odd, Half, Fits;
      LowBitsShift(Half(x), width - 1);
      LowBitsCons(x, width);
      LowBitsCons(Half(x), width);
    }
  }

  lemma LowBitsCons(x: bv32, width: nat)
    requires width > 0
    ensures LowBits(x, width) == [Odd(x)] + LowBits(Half(x), width - 1)
  {
  }

  lemma OneBitLeft(x: bv32)
    requires !Odd(x)
    ensures LowBits(x, 1) == [false]
  {
    hide Odd, Half;
  }

  lemma WordShift(x: bv32)
    ensures WordOf(Half(x)) == Shr(WordOf(x), 1) && WordOf(x)[0] == Odd(x)
  {
    hide Odd, Half, Fits;
    EverythingFits(x);
    LowBitsShift(x, 32);
  }

  /** The lowest bits of x and n agree. */
  predicate Agree(x: bv32, n: nat, width: nat)
    decreases width
  {
    width == 0 || ((x & 1 == 1) == (n % 2 == 1) && Agree(x >> 1, n / 2, width - 1))
  }

  lemma HalfIs(x: bv32)
    ensures Half(x) == x >> 1 && Odd(x) == (x & 1 == 1)
  {
  }

  lemma {:induction false} AgreeingBits(x: bv32, n: nat, width: nat)
    requires Agree(x, n, width)
    ensures LowBits(x, width) == FromNat(n, width)
    decreases width
  {
    HalfIs(x);
    hide Half, Odd;
    if width > 0 { AgreeingBits(Half(x), n / 2, width - 1); }
  }

  lemma NumberOf(x: bv32, n: nat)
    requires Agree(x, n, 32) && n < 0x1_0000_0000
    ensures WordOf(x) == FromNat(n, 32) && ToNat(WordOf(x)) == n
  {
    hide FromNat, LowBits, ToNat, Agree;
    AgreeingBits(x, n, 32);
    WordRange();
    ToNatOfFromNat(n, 32);
  }

  // ---- the constants ------------------------------------------------------------------

  lemma PolynomialHighBits()
    ensures Agree(0xEDB8, 0xEDB8, 16)
  {
    assert Agree(0xED, 0xED, 8);
  }

  lemma PolynomialBits()
    ensures Agree(0xEDB8_8320, 0xEDB8_8320, 32)
  {
    PolynomialHighBits();
    assert Agree(0xED_B883, 0xED_B883, 24);
  }

  lemma PolynomialWord()
    ensures POLY == WordOf(0xEDB8_8320)
  {
    PolynomialBits();
    hide FromNat, WordOf, Agree, ToNat;
    NumberOf(0xEDB8_8320, 0xEDB8_8320);
  }

  lemma OneBits()
    ensures Agree(0xFFFF_FFFF, 0xFFFF_FFFF, 32)
  {
    assert Agree(0xFF, 0xFF, 8);
    assert Agree(0xFFFF, 0xFFFF, 16);
    assert Agree(0xFF_FFFF, 0xFF_FFFF, 24);
  }

  lemma {:induction false} AllBitsSet(n: nat, width: nat)
    requires n + 1 == Power2(width)
    ensures forall i :: 0 <= i < width ==> FromNat(n, width)[i]
    decreases width
  {
    if width > 0 { AllBitsSet(n / 2, width - 1); }
  }

  /** The start value and the final complement are 0xffffffff. */
  lemma OnesAsWritten()
    ensures ONES == WordOf(0xFFFF_FFFF) && ToNat(ONES) == 0xFFFF_FFFF
  {
    OneBits();
    hide FromNat, WordOf, Agree, ToNat;
    NumberOf(0xFFFF_FFFF, 0xFFFF_FFFF);
    WordRange();
    AllBitsSet(0xFFFF_FFFF, 32);
    assert ONES == FromNat(0xFFFF_FFFF, 32);
  }

  // ---- the checksum ---------------------------------------------------------------------

  /** Feeds one message bit into the register. */
  function FeedMachine(reg: bv32, bit: bool): bv32 {
    if (reg & 1 == 1) != bit then (reg >> 1) ^ 0xEDB8_8320 else reg >> 1
  }

  /** Feeds the k lowest bits of b, least significant first. */
  function FeedBits(reg: bv32, b: nat, k: nat): bv32
    decreases k, b
  {
    if k == 0 then reg else FeedBits(FeedMachine(reg, b % 2 == 1), b / 2, k - 1)
  }

  function Register(buffer: seq<Byte>): bv32 {
    if buffer == [] then 0xFFFF_FFFF else FeedBits(Register(buffer[..|buffer| - 1]), buffer[|buffer| - 1], 8)
  }

  function Checksum(buffer: seq<Byte>): bv32 { Register(buffer) ^ 0xFFFF_FFFF }

  lemma FeedMachineIs(reg: bv32, bit: bool)
    ensures FeedMachine(reg, bit) == if Odd(reg) != bit then Exclusive(Half(reg), 0xEDB8_8320) else Half(reg)
  {
  }

  lemma FeedIsMachine(reg: bv32, bit: bool)
    ensures Feed(WordOf(reg), bit) == WordOf(FeedMachine(reg, bit))
  {
    hide Odd, Half, Exclusive, FeedMachine, Xor, Shr, LowBits;
    PolynomialWord();
    FeedMachineIs(reg, bit);
    WordShift(reg);
    LowBitsXor(Half(reg), 0xEDB8_8320, 32);
  }

  lemma {:induction false} FeedBitsIs(reg: bv32, b: nat, k: nat)
    ensures FeedAll(WordOf(reg), FromNat(b, k)) == WordOf(FeedBits(reg, b, k))
    decreases k
  {
    hide WordOf, Feed, FeedMachine;
    if k > 0 {
      FeedIsMachine(reg, b % 2 == 1);
      FeedBitsIs(FeedMachine(reg, b % 2 == 1), b / 2, k - 1);
    }
  }

  lemma {:induction false} RegisterIs(buffer: seq<Byte>)
    ensures FeedAll(ONES, BitsOf(buffer)) == WordOf(Register(buffer))
    decreases buffer
  {
    hide WordOf, FeedAll, FeedBits, FromNat;
    if buffer == [] {
      FeedNothing(ONES);
      OnesAsWritten();
    } else {
      var init, b := buffer[..|buffer| - 1], buffer[|buffer| - 1];
      RegisterIs(init);
      FeedAppends(ONES, BitsOf(init), FromNat(b, 8));
      FeedBitsIs(Register(init), b, 8);
    }
  }

  lemma ComplementIs(x: bv32, ones: bv32)
    requires ONES == WordOf(ones)
    ensures WordOf(Exclusive(x, ones)) == Xor(WordOf(x), ONES)
  {
    hide Xor, Exclusive, LowBits;
    LowBitsXor(x, ones, 32);
  }

  /** The checksum of every buffer is the one machine arithmetic gives. */
  lemma ChecksumIs(buffer: seq<Byte>)
    ensures Crc32(buffer) == WordOf(Checksum(buffer))
  {
    hide WordOf, FeedAll, Register, Xor;
    RegisterIs(buffer);
    assert Checksum(buffer) == Exclusive(Register(buffer), 0xFFFF_FFFF);
    OnesAsWritten();
    ComplementIs(Register(buffer), 0xFFFF_FFFF);
  }

  // ---- values ---------------------------------------------------------------------------

  lemma RegisterSnoc(a: seq<Byte>, b: Byte)
    ensures Register(a + [b]) == FeedBits(Register(a), b, 8)
  {
    assert (a + [b])[..|a|] == a;
  }

  /** Four zero bytes. */
  lemma ZeroRegisters()
    ensures Register([0]) == 0x2DFD_1072 && Register([0, 0, 0, 0]) == 0xDEBB_20E3
  {
    hide FeedMachine;
    assert [] + [0] == [0] && [0] + [0] == [0, 0] && [0, 0] + [0] == [0, 0, 0] && [0, 0, 0] + [0] == [0, 0, 0, 0];
    RegisterSnoc([], 0);
    RegisterSnoc([0], 0);
    RegisterSnoc([0, 0], 0);
    RegisterSnoc([0, 0, 0], 0);
    ZeroBytes();
  }

  lemma ZeroBytes()
    ensures FeedBits(0xFFFF_FFFF, 0, 8) == 0x2DFD_1072 && FeedBits(0x2DFD_1072, 0, 8) == 0xBE26_ED00
    ensures FeedBits(0xBE26_ED00, 0, 8) == 0x00BE_26ED && FeedBits(0x00BE_26ED, 0, 8) == 0xDEBB_20E3
  {
  }

  lemma HighBits()
    ensures Agree(0xD202, 0xD202, 16) && Agree(0x2144, 0x2144, 16)
  {
    assert Agree(0xD2, 0xD2, 8);
    assert Agree(0x21, 0x21, 8);
  }

  lemma HigherBits()
    ensures Agree(0xD2_02EF, 0xD2_02EF, 24) && Agree(0x21_44DF, 0x21_44DF, 24)
  {
    HighBits();
  }

  lemma OneByteBits()
    ensures Agree(0xD202_EF8D, 0xD202_EF8D, 32)
  {
    HigherBits();
  }

  lemma ResidueBits()
    ensures Agree(0x2144_DF1C, 0x2144_DF1C, 32)
  {
    HigherBits();
  }

  lemma ValueOf(buffer: seq<Byte>, x: bv32, n: nat)
    requires Checksum(buffer) == x && Agree(x, n, 32) && n < 0x1_0000_0000
    ensures ToNat(Crc32(buffer)) == n
  {
    hide *;
    ChecksumIs(buffer);
    NumberOf(x, n);
  }

  /** Known checksums, of one zero byte and of four. */
  lemma KnownChecksums()
    ensures ToNat(Crc32([0])) == 0xD202_EF8D && ToNat(Crc32([0, 0, 0, 0])) == 0x2144_DF1C
  {
    ZeroRegisters();
    assert Checksum([0]) == 0xD202_EF8D && Checksum([0, 0, 0, 0]) == 0x2144_DF1C;
    hide *;
    OneByteBits();
    ResidueBits();
    ValueOf([0], 0xD202_EF8D, 0xD202_EF8D);
    ValueOf([0, 0, 0, 0], 0x2144_DF1C, 0x2144_DF1C);
  }

  // ---- the checksum behind its buffer ------------------------------------------------------

  /** The bytes of a checksum, least significant first. */
  function LittleEndian(w: Word): (r: seq<Byte>)
    ensures |r| == 4
  {
    [ToByte(w[..8]), ToByte(w[8..16]), ToByte(w[16..24]), ToByte(w[24..32])]
  }

  lemma FourBytes(a: Byte, b: Byte, c: Byte, d: Byte)
    ensures BitsOf([a, b, c, d]) == FromNat(a, 8) + FromNat(b, 8) + FromNat(c, 8) + FromNat(d, 8)
  {
    hide FromNat;
    BitsOfSnoc([], a);
    BitsOfSnoc([a], b);
    BitsOfSnoc([a, b], c);
    BitsOfSnoc([a, b, c], d);
    assert [] + [a] == [a] && [a] + [b] == [a, b] && [a, b] + [c] == [a, b, c] && [a, b, c] + [d] == [a, b, c, d];
    assert BitsOf([a]) == FromNat(a, 8);
  }

  lemma BitsOfLittleEndian(w: Word)
    ensures BitsOf(LittleEndian(w)) == w
  {
    hide BitsOf, FromNat, ToByte;
    FourBytes(ToByte(w[..8]), ToByte(w[8..16]), ToByte(w[16..24]), ToByte(w[24..32]));
    ByteRoundTrip(0, w[..8]);
    ByteRoundTrip(0, w[8..16]);
    ByteRoundTrip(0, w[16..24]);
    ByteRoundTrip(0, w[24..32]);
    assert w == w[..8] + w[8..16] + w[16..24] + w[24..32];
  }

  /** Feeding a register the bits it differs from ONES in leaves what 32 steps make of ONES. */
  lemma FeedsComplement(reg: Word)
    ensures FeedAll(reg, Xor(reg, ONES)) == Steps(ONES, 32)
  {
    FeedFolds(reg, Xor(reg, ONES));
    assert Xor(reg, Padded(Xor(reg, ONES))) == ONES;
  }

  lemma FeedsNothing(zeros: Word)
    requires zeros == Zeros(32)
    ensures FeedAll(ONES, zeros) == Steps(ONES, 32)
  {
    hide FeedAll, Steps;
    FeedFolds(ONES, zeros);
    XorZeros(ONES, zeros);
  }

  lemma XorZeros(reg: Word, zeros: Word)
    requires zeros == Zeros(32)
    ensures Xor(reg, Padded(zeros)) == reg
  {
    hide Zeros;
    assert Padded(zeros) == zeros;
  }

  lemma ZeroByte()
    ensures FromNat(0, 8) == Zeros(8)
  {
    FromNatOfToNat([], 8);
  }

  lemma FourZeros()
    ensures BitsOf([0, 0, 0, 0]) == Zeros(32)
  {
    hide BitsOf, FromNat;
    FourBytes(0, 0, 0, 0);
    ZeroByte();
    assert Zeros(8) + Zeros(8) + Zeros(8) + Zeros(8) == Zeros(32);
  }

  lemma BehindItsBuffer(buffer: seq<Byte>)
    ensures Crc32(buffer + LittleEndian(Crc32(buffer))) == Crc32([0, 0, 0, 0])
  {
    hide BitsOf, FeedAll, Steps, Xor;
    var reg, bytes := FeedAll(ONES, BitsOf(buffer)), LittleEndian(Crc32(buffer));
    Resumes(buffer, bytes);
    BitsOfLittleEndian(Crc32(buffer));
    FeedsComplement(reg);
    FourZeros();
    FeedsNothing(BitsOf([0, 0, 0, 0]));
  }

  lemma NumberIsWord(a: Word, b: Word)
    requires ToNat(a) == ToNat(b)
    ensures a == b
  {
    FromNatOfToNat(a, 32);
    FromNatOfToNat(b, 32);
    assert a + Zeros(0) == a && b + Zeros(0) == b;
  }

  lemma BytesBehind(buffer: seq<Byte>, four: seq<Byte>, other: seq<Byte>)
    requires |four| == |other| == 4 && Crc32(buffer + four) == Crc32(buffer + other)
    ensures four == other
  {
    if four != other {
      assert (buffer + four)[|buffer|..] == four && (buffer + other)[|buffer|..] == other;
      FourByteBurstIsDetected(buffer + four, buffer + other, |buffer|);
    }
  }

  /**
   The law by which such a checksum is checked: a buffer and four bytes behind it
   have the checksum 0x2144df1c exactly when the four bytes are the buffer's
   checksum, least significant byte first.
   */
  lemma ResidueIff(buffer: seq<Byte>, four: seq<Byte>)
    requires |four| == 4
    ensures ToNat(Crc32(buffer + four)) == 0x2144_DF1C <==> four == LittleEndian(Crc32(buffer))
  {
    hide Crc32, ToNat;
    BehindItsBuffer(buffer);
    KnownChecksums();
    if ToNat(Crc32(buffer + four)) == 0x2144_DF1C {
      NumberIsWord(Crc32(buffer + four), Crc32([0, 0, 0, 0]));
      BytesBehind(buffer, four, LittleEndian(Crc32(buffer)));
    }
  }
}
