/**
 CyclicRedundancyCheck.cpp: the table-driven CRC against the bit-serial reflected
 CRC-32 of RFC 2083, section 3.4, and what the checksum detects.
 */
module Crc {
  import opened Bits

  type Word = w: seq<bool> | |w| == 32 witness Zeros(32)

  const POLY: Word := FromNat(0xEDB8_8320, 32)

  const ONES: Word := [
    true, true, true, true, true, true, true, true, true, true, true, true, true, true, true, true,
    true, true, true, true, true, true, true, true, true, true, true, true, true, true, true, true]

  // ---- the bit-serial definition ------------------------------------------------

  /** Feeds one message bit into the reflected register. */
  function Feed(reg: Word, bit: bool): Word {
    if reg[0] != bit then Xor(Shr(reg, 1), POLY) else Shr(reg, 1)
  }

  function FeedAll(reg: Word, bits: seq<bool>): Word
    decreases bits
  {
    if bits == [] then reg else FeedAll(Feed(reg, bits[0]), bits[1..])
  }

  /** The bits of a message: bytes in order, least significant bit first. */
  function BitsOf(buffer: seq<Byte>): (r: seq<bool>)
    ensures |r| == 8 * |buffer|
  {
    if buffer == [] then [] else BitsOf(buffer[..|buffer| - 1]) + FromNat(buffer[|buffer| - 1], 8)
  }

  function Crc32(buffer: seq<Byte>): Word {
    Xor(FeedAll(ONES, BitsOf(buffer)), ONES)
  }

  // ---- the code --------------------------------------------------------------------

  /** One turn of the inner loop, lines 41-44: the shifted register is masked with 0x7fffffff before the xor. */
  function Step(c: Word): Word {
    if c[0] then Xor(POLY, Shr(c, 1)[..31] + [false]) else Shr(c, 1)
  }

  function Steps(c: Word, k: nat): Word
    decreases k, c
  {
    if k == 0 then c else Steps(Step(c), k - 1)
  }

  function Entry(i: Byte): Word { Steps(FromNat(i, 32), 8) }

  /** The table look-up for one byte; the shifted register is masked with 0x00ffffff. */
  function TableStep(table: seq<Word>, crc: Word, b: Byte): Word
    requires |table| == 256
  {
    Xor(table[ToByte(Xor(crc, FromNat(b, 32))[..8])], Shr(crc, 8)[..24] + Zeros(8))
  }

  ghost predicate IsCrcTable(table: seq<Word>) {
    |table| == 256 && forall i: Byte :: table[i] == Entry(i)
  }

  class Calculator {
    const crcTable: array<Word>
    var crcTableComputed: bool

    ghost predicate Valid()
      reads this, crcTable
    {
      crcTable.Length == 256 && (crcTableComputed ==> IsCrcTable(crcTable[..]))
    }

    constructor ()
      ensures Valid() && fresh(crcTable) && !crcTableComputed
    {
      crcTable := new Word[256](_ => Zeros(32));
      crcTableComputed := false;
    }

    method MakeCrcTable()
      requires crcTable.Length == 256
      modifies crcTable
      ensures IsCrcTable(crcTable[..])
    {
      var i := 0;
      while i < 256
        invariant 0 <= i <= 256 && forall j: Byte :: j < i ==> crcTable[j] == Entry(j)
      {
        var c := MakeEntry(i);
        crcTable[i] := c;
        i := i + 1;
      }
    }

    /** One entry of the table: eight steps on its index. */
    static method MakeEntry(i: Byte) returns (c: Word)
      ensures c == Entry(i)
    {
      c := FromNat(i, 32);
      var k := 0;
      while k < 8
        invariant 0 <= k <= 8 && Steps(c, 8 - k) == Entry(i)
      {
        c := Step(c);
        k := k + 1;
      }
    }

    /** Returns the bit-serial checksum, whether or not the table was computed by an earlier call. */
    method ComputeCrc(buffer: seq<Byte>) returns (r: Word)
      requires Valid()
      modifies this, crcTable
      ensures Valid() && crcTableComputed
      ensures r == Crc32(buffer)
    {
      if !crcTableComputed {
        MakeCrcTable();
        crcTableComputed := true;
      }
      var crc := RunTable(crcTable[..], buffer);
      r := Xor(crc, ONES);
    }

    /** The loop over the buffer, without the complement at the end. */
    static method RunTable(table: seq<Word>, buffer: seq<Byte>) returns (crc: Word)
      requires IsCrcTable(table)
      ensures crc == FeedAll(ONES, BitsOf(buffer))
    {
      FeedNothing(ONES);
      hide FeedAll, TableStep, BitsOf, Entry;
      crc := ONES;
      var i := 0;
      while i < |buffer|
        invariant i <= |buffer| && crc == FeedAll(ONES, BitsOf(buffer[..i]))
      {
        TableStepExtends(table, buffer, i);
        crc := TableStep(table, crc, buffer[i]);
        i := i + 1;
      }
      assert buffer[..i] == buffer;
    }
  }

  // ---- the table step is eight bit steps ----------------------------------------------

  /** The constant -306674912 of the source is the polynomial, whose top bit is set. */
  lemma PolynomialAsWritten()
    ensures ToNat(POLY) == 0xEDB8_8320 == 0x1_0000_0000 - 306674912
    ensures POLY[31]
  {
    WordRange();
    ToNatOfFromNat(0xEDB8_8320, 32);
    if !POLY[31] { TopBitClear(POLY); }
  }

  lemma {:induction false} FeedAppends(reg: Word, a: seq<bool>, b: seq<bool>)
    ensures FeedAll(reg, a + b) == FeedAll(FeedAll(reg, a), b)
    decreases a
  {
    if a == [] {
      assert a + b == b;
    } else {
      FeedAppends(Feed(reg, a[0]), a[1..], b);
      assert (a + b)[1..] == a[1..] + b;
    }
  }

  lemma StepIsLinear(x: Word, y: Word)
    ensures Step(Xor(x, y)) == Xor(Step(x), Step(y))
  {
  }

  lemma {:induction false} StepsAreLinear(x: Word, y: Word, k: nat)
    ensures Steps(Xor(x, y), k) == Xor(Steps(x, k), Steps(y, k))
    decreases k
  {
    if k > 0 {
      StepIsLinear(x, y);
      StepsAreLinear(Step(x), Step(y), k - 1);
    }
  }

  lemma {:induction false} HighBitsShift(y: Word, k: nat)
    requires k <= 32 && forall i :: 0 <= i < k ==> !y[i]
    ensures Steps(y, k) == Shr(y, k)
    decreases k
  {
    if k > 0 {
      HighBitsShift(Step(y), k - 1);
      assert Shr(y, 1)[k - 1..] == y[k..] + [false];
    }
  }

  function Padded(bits: seq<bool>): Word
    requires |bits| <= 32
  {
    bits + Zeros(32 - |bits|)
  }

  /** Feeding a bit is stepping the register with the message folded in. */
  lemma FeedIsStep(reg: Word, bits: seq<bool>)
    requires 0 < |bits| <= 32
    ensures Step(Xor(reg, Padded(bits))) == Xor(Feed(reg, bits[0]), Padded(bits[1..]))
  {
    var x, y := Xor(reg, Padded(bits)), Padded(bits[1..]);
    forall i | 0 <= i < 32 ensures Shr(x, 1)[i] == (Shr(reg, 1)[i] != y[i]) {}
  }

  /** At most 32 message bits can be folded into the register before stepping it. */
  lemma {:induction false} FeedFolds(reg: Word, bits: seq<bool>)
    requires |bits| <= 32
    ensures FeedAll(reg, bits) == Steps(Xor(reg, Padded(bits)), |bits|)
    decreases bits
  {
    if bits == [] {
      assert Xor(reg, Padded(bits)) == reg;
    } else {
      FeedFolds(Feed(reg, bits[0]), bits[1..]);
      FeedIsStep(reg, bits);
    }
  }

  /** Eight steps split into a table entry and a shift by a byte. */
  lemma EightSteps(x: Word)
    ensures Steps(x, 8) == Xor(Entry(ToByte(x[..8])), Shr(x, 8))
  {
    var low: Word, high: Word := x[..8] + Zeros(24), Zeros(8) + x[8..];
    FromNatOfToNat(x[..8], 32);
    assert Xor(low, high) == x;
    StepsAreLinear(low, high, 8);
    HighBitsShift(high, 8);
    assert Shr(high, 8) == Shr(x, 8);
  }

  lemma FeedsByte(crc: Word, b: Byte)
    ensures FeedAll(crc, FromNat(b, 8)) == Steps(Xor(crc, FromNat(b, 32)), 8)
  {
    WideByte(b);
    FeedFolds(crc, FromNat(b, 8));
  }

  lemma TableStepFeeds(table: seq<Word>, crc: Word, b: Byte)
    requires IsCrcTable(table)
    ensures TableStep(table, crc, b) == FeedAll(crc, FromNat(b, 8))
  {
    var x: Word := Xor(crc, FromNat(b, 32));
    FeedsByte(crc, b);
    EightSteps(x);
    var i := ToByte(x[..8]);
    assert table[i] == Entry(i);
    assert Shr(x, 8) == Shr(crc, 8)[..24] + Zeros(8) by { WideByte(b); }
  }

  lemma TableStepExtends(table: seq<Word>, buffer: seq<Byte>, i: nat)
    requires i < |buffer| && IsCrcTable(table)
    ensures FeedAll(ONES, BitsOf(buffer[..i + 1])) == TableStep(table, FeedAll(ONES, BitsOf(buffer[..i])), buffer[i])
  {
    assert buffer[..i + 1][..i] == buffer[..i];
    FeedAppends(ONES, BitsOf(buffer[..i]), FromNat(buffer[i], 8));
    TableStepFeeds(table, FeedAll(ONES, BitsOf(buffer[..i])), buffer[i]);
  }

  lemma WideByte(b: Byte)
    ensures FromNat(b, 32) == FromNat(b, 8) + Zeros(24)
  {
    ByteRoundTrip(b, []);
    FromNatOfToNat(FromNat(b, 8), 32);
  }

  lemma FeedNothing(reg: Word)
    ensures FeedAll(reg, BitsOf([])) == reg
  {
  }

  lemma BitsOfSnoc(a: seq<Byte>, x: Byte)
    ensures BitsOf(a + [x]) == BitsOf(a) + FromNat(x, 8)
  {
    assert (a + [x])[..|a|] == a;
  }

  lemma {:induction false} BitsOfAppends(a: seq<Byte>, b: seq<Byte>)
    ensures BitsOf(a + b) == BitsOf(a) + BitsOf(b)
    decreases b
  {
    if b == [] {
      assert a + b == a;
    } else {
      var c, x := b[..|b| - 1], b[|b| - 1];
      BitsOfAppends(a, c);
      assert b == c + [x] && a + b == (a + c) + [x];
      BitsOfSnoc(c, x);
      BitsOfSnoc(a + c, x);
      Associates(BitsOf(a), BitsOf(c), FromNat(x, 8));
    }
  }

  lemma Associates(a: seq<bool>, b: seq<bool>, c: seq<bool>)
    ensures a + b + c == a + (b + c)
  {
  }

  /** Processing a concatenation is resuming from the intermediate register. */
  lemma Resumes(a: seq<Byte>, b: seq<Byte>)
    ensures Crc32(a + b) == Xor(FeedAll(FeedAll(ONES, BitsOf(a)), BitsOf(b)), ONES)
  {
    BitsOfAppends(a, b);
    FeedAppends(ONES, BitsOf(a), BitsOf(b));
  }

  // ---- error detection -------------------------------------------------------------------

  /** The top bit after a step says whether the polynomial was added. */
  lemma TopBitAfter(x: Word, bit: bool)
    ensures Step(x)[31] == x[0] && Feed(x, bit)[31] == (x[0] != bit)
  {
    hide FromNat;
    PolynomialAsWritten();
  }

  /** The other bits have moved down, with the polynomial added or not. */
  lemma LowerBitsAfter(x: Word, bit: bool, i: nat)
    requires 0 < i < 32
    ensures Step(x)[i - 1] == (x[i] != (x[0] && POLY[i - 1]))
    ensures Feed(x, bit)[i - 1] == (x[i] != ((x[0] != bit) && POLY[i - 1]))
  {
    hide FromNat;
    assert Shr(x, 1)[i - 1] == x[i];
  }

  lemma StepIsInjective(x: Word, y: Word)
    requires Step(x) == Step(y)
    ensures x == y
  {
    hide *;
    TopBitAfter(x, false);
    TopBitAfter(y, false);
    forall i | 0 < i < 32 ensures x[i] == y[i] {
      LowerBitsAfter(x, false, i);
      LowerBitsAfter(y, false, i);
    }
  }

  lemma FeedIsInjective(x: Word, y: Word, bit: bool)
    requires Feed(x, bit) == Feed(y, bit)
    ensures x == y
  {
    hide *;
    TopBitAfter(x, bit);
    TopBitAfter(y, bit);
    forall i | 0 < i < 32 ensures x[i] == y[i] {
      LowerBitsAfter(x, bit, i);
      LowerBitsAfter(y, bit, i);
    }
  }

  lemma {:induction false} StepsAreInjective(x: Word, y: Word, k: nat)
    requires Steps(x, k) == Steps(y, k)
    ensures x == y
    decreases k
  {
    if k > 0 {
      StepsAreInjective(Step(x), Step(y), k - 1);
      StepIsInjective(x, y);
    }
  }

  lemma {:induction false} FeedAllIsInjective(x: Word, y: Word, bits: seq<bool>)
    requires FeedAll(x, bits) == FeedAll(y, bits)
    ensures x == y
    decreases bits
  {
    if bits != [] {
      FeedAllIsInjective(Feed(x, bits[0]), Feed(y, bits[0]), bits[1..]);
      FeedIsInjective(x, y, bits[0]);
    }
  }

  /** At most 32 different bits lead to different registers. */
  lemma WindowIsInjective(reg: Word, a: seq<bool>, b: seq<bool>)
    requires |a| == |b| <= 32 && FeedAll(reg, a) == FeedAll(reg, b)
    ensures a == b
  {
    var wa, wb := Padded(a), Padded(b);
    FeedFolds(reg, a);
    FeedFolds(reg, b);
    StepsAreInjective(Xor(reg, wa), Xor(reg, wb), |a|);
    forall i | 0 <= i < |a| ensures a[i] == b[i] {
      assert Xor(reg, wa)[i] == Xor(reg, wb)[i];
    }
  }

  /** Messages that differ only inside a window of at most 32 bits lead to different registers. */
  lemma WindowIsDetected(reg: Word, before: seq<bool>, a: seq<bool>, b: seq<bool>, after: seq<bool>)
    requires |a| == |b| <= 32 && a != b
    ensures FeedAll(reg, before + a + after) != FeedAll(reg, before + b + after)
  {
    FeedThree(reg, before, a, after);
    FeedThree(reg, before, b, after);
    var r := FeedAll(reg, before);
    if FeedAll(reg, before + a + after) == FeedAll(reg, before + b + after) {
      FeedAllIsInjective(FeedAll(r, a), FeedAll(r, b), after);
      WindowIsInjective(r, a, b);
      assert false;
    }
  }

  lemma SplitsAround(a: seq<bool>, p: nat, q: nat)
    requires p <= q <= |a|
    ensures a == a[..p] + a[p..q] + a[q..]
  {
  }

  /** Every burst error of at most 32 bits, at any bit position, changes the checksum. */
  lemma BurstIsDetected(x: seq<Byte>, y: seq<Byte>, at: nat)
    requires |x| == |y| && x != y
    requires forall i :: 0 <= i < 8 * |x| && !(at <= i < at + 32) ==> BitsOf(x)[i] == BitsOf(y)[i]
    ensures Crc32(x) != Crc32(y)
  {
    var n, a, b := 8 * |x|, BitsOf(x), BitsOf(y);
    var p := if at <= n then at else n;
    var q := if p + 32 <= n then p + 32 else n;
    assert a[..p] == b[..p] && a[q..] == b[q..];
    SplitsAround(a, p, q);
    SplitsAround(b, p, q);
    if a == b { BitsDetermineBytes(x, y); }
    WindowIsDetected(ONES, a[..p], a[p..q], b[p..q], a[q..]);
    if Crc32(x) == Crc32(y) { XorIsInjective(FeedAll(ONES, a), FeedAll(ONES, b), ONES); }
  }

  lemma FeedThree(reg: Word, a: seq<bool>, b: seq<bool>, c: seq<bool>)
    ensures FeedAll(reg, a + b + c) == FeedAll(FeedAll(FeedAll(reg, a), b), c)
  {
    FeedAppends(reg, a + b, c);
    FeedAppends(reg, a, b);
  }

  lemma XorIsInjective(x: Word, y: Word, z: Word)
    requires Xor(x, z) == Xor(y, z)
    ensures x == y
  {
    forall i | 0 <= i < 32 ensures x[i] == y[i] { assert Xor(x, z)[i] == Xor(y, z)[i]; }
  }

  lemma SameHalves(a: seq<bool>, b: seq<bool>, c: seq<bool>, d: seq<bool>)
    requires |a| == |c| && a + b == c + d
    ensures a == c && b == d
  {
    assert a == (a + b)[..|a|] && c == (c + d)[..|c|];
    assert b == (a + b)[|a|..] && d == (c + d)[|c|..];
  }

  lemma {:induction false} BitsDetermineBytes(x: seq<Byte>, y: seq<Byte>)
    requires |x| == |y| && BitsOf(x) == BitsOf(y)
    ensures x == y
  {
    if x != [] {
      var n := |x| - 1;
      SameHalves(BitsOf(x[..n]), FromNat(x[n], 8), BitsOf(y[..n]), FromNat(y[n], 8));
      BitsDetermineBytes(x[..n], y[..n]);
      ByteRoundTrip(x[n], []);
      ByteRoundTrip(y[n], []);
      assert x == x[..n] + [x[n]] && y == y[..n] + [y[n]];
    }
  }

  /** In particular, buffers that differ only inside four consecutive bytes have different checksums. */
  lemma FourByteBurstIsDetected(x: seq<Byte>, y: seq<Byte>, at: nat)
    requires |x| == |y| && x != y
    requires forall i :: 0 <= i < |x| && !(at <= i < at + 4) ==> x[i] == y[i]
    ensures Crc32(x) != Crc32(y)
  {
    forall i | 0 <= i < 8 * |x| && !(8 * at <= i < 8 * at + 32) ensures BitsOf(x)[i] == BitsOf(y)[i] {
      BitOfBuffer(x, i);
      BitOfBuffer(y, i);
    }
    BurstIsDetected(x, y, 8 * at);
  }

  lemma {:induction false} BitOfBuffer(x: seq<Byte>, i: nat)
    requires i < 8 * |x|
    ensures BitsOf(x)[i] == FromNat(x[i / 8], 8)[i % 8]
  {
    var n := |x| - 1;
    if i < 8 * n {
      BitOfBuffer(x[..n], i);
      assert x[..n][i / 8] == x[i / 8];
    } else {
      assert i / 8 == n && i % 8 == i - 8 * n;
    }
  }
}
