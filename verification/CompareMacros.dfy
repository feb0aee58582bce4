/**
 The `COMPARE_n` macros of the generated header, over byte-addressed memory:
 characters of 1 or 2 bytes, packed little-endian loads of 2 or 4 characters.
 A load outside the memory, or a macro that is not defined, is a fault.
 */
module CompareMacros {
  import opened Bits

  datatype CharType = CHAR | UCHAR

  /** The three sets of macro definitions for little-endian machines. */
  datatype Target = NeedsAlignedAccess | LittleEndian | LittleEndianX86_64

  datatype Verdict = Fault | Val(holds: bool)

  /** The number of bytes n characters take. */
  function Bytes(ty: CharType, n: nat): nat { if ty == CHAR then n else n + n }

  /** One more than the largest character of the type. */
  function Radix(ty: CharType): int { if ty == CHAR then 0x100 else 0x1_0000 }

  predicate Fits(ty: CharType, c: char) { c as int < Radix(ty) }

  /** A little-endian load of n bytes. */
  function Load(mem: seq<Byte>, at: nat, n: nat): int
    requires at + n <= |mem|
    decreases n
  {
    if n == 0 then 0 else mem[at] + 0x100 * Load(mem, at + 1, n - 1)
  }

  predicate InMemory(ty: CharType, mem: seq<Byte>, i: nat) {
    Bytes(ty, i + 1) <= |mem|
  }

  /** `code[i]` */
  function CharAt(ty: CharType, mem: seq<Byte>, i: nat): (c: int)
    requires InMemory(ty, mem, i)
    ensures 0 <= c < Radix(ty)
  {
    LoadInRange(mem, Bytes(ty, i), Bytes(ty, 1));
    Load(mem, Bytes(ty, i), Bytes(ty, 1))
  }

  lemma LoadInRange(mem: seq<Byte>, at: nat, n: nat)
    requires at + n <= |mem|
    ensures n == 1 ==> 0 <= Load(mem, at, n) < 0x100
    ensures n == 2 ==> 0 <= Load(mem, at, n) < 0x1_0000
    ensures n == 4 ==> 0 <= Load(mem, at, n) < U32
  {
    LoadSplits2(mem, at, n);
    if n == 4 { LoadSplits2(mem, at + 2, 2); }
  }

  lemma LoadSplits2(mem: seq<Byte>, at: nat, n: nat)
    requires at + n <= |mem|
    ensures n >= 1 ==> Load(mem, at, 1) == mem[at]
    ensures n >= 1 ==> Load(mem, at, n) == Load(mem, at, 1) + 0x100 * Load(mem, at + 1, n - 1)
    ensures n >= 2 ==> Load(mem, at, 2) == Load(mem, at, 1) + 0x100 * Load(mem, at + 1, 1)
    ensures n >= 2 ==> Load(mem, at, n) == Load(mem, at, 2) + 0x1_0000 * Load(mem, at + 2, n - 2)
    decreases n
  {
    if n >= 2 {
      assert Load(mem, at + 1, 1) == mem[at + 1] + 0x100 * Load(mem, at + 2, 0);
      assert Load(mem, at + 1, n - 1) == mem[at + 1] + 0x100 * Load(mem, at + 2, n - 2);
    }
  }

  lemma LoadSplits4(mem: seq<Byte>, at: nat)
    requires at + 8 <= |mem|
    ensures Load(mem, at, 8) == Load(mem, at, 4) + U32 * Load(mem, at + 4, 4)
  {
    LoadSplits2(mem, at, 4);
    LoadSplits2(mem, at, 8);
    LoadSplits2(mem, at + 2, 6);
  }

  const U32 := 0x1_0000_0000
  const U64 := 0x1_0000_0000_0000_0000

  /** CHARPAIR_TOUINT16 and UCHARPAIR_TOUINT32; PairPacks and QuadPacks show that nothing is truncated. */
  function Pair(ty: CharType, a: char, b: char): int {
    Radix(ty) * b as int + a as int
  }

  /** CHARQUAD_TOUINT32 and UCHARQUAD_TOUINT64 */
  function Quad(ty: CharType, a: char, b: char, c: char, d: char): int {
    Square(ty) * Pair(ty, c, d) + Pair(ty, a, b)
  }

  /** Radix(ty) * Radix(ty), the shift of the upper pair */
  function Square(ty: CharType): int { if ty == CHAR then 0x1_0000 else U32 }

  /** C's && */
  function And(a: Verdict, b: Verdict): Verdict {
    if a == Val(true) then b else a
  }

  function CharIs(ty: CharType, mem: seq<Byte>, i: nat, c: char): Verdict {
    if InMemory(ty, mem, i) then Val(CharAt(ty, mem, i) == c as int) else Fault
  }

  function WordIs(ty: CharType, mem: seq<Byte>, i: nat, n: nat, word: int): Verdict {
    if Bytes(ty, i + n) <= |mem| then Val(Load(mem, Bytes(ty, i), Bytes(ty, n)) == word) else Fault
  }

  // The character arguments of a macro are the string cs.

  function Compare2(target: Target, ty: CharType, mem: seq<Byte>, i: nat, cs: string): Verdict
    requires |cs| == 2
  {
    match target
    case NeedsAlignedAccess => And(CharIs(ty, mem, i, cs[0]), CharIs(ty, mem, i + 1, cs[1]))
    case _ => WordIs(ty, mem, i, 2, Pair(ty, cs[0], cs[1]))
  }

  function Compare4(target: Target, ty: CharType, mem: seq<Byte>, i: nat, cs: string): Verdict
    requires |cs| == 4
  {
    match target
    case LittleEndianX86_64 => WordIs(ty, mem, i, 4, Quad(ty, cs[0], cs[1], cs[2], cs[3]))
    case _ => And(Compare2(target, ty, mem, i, cs[..2]), Compare2(target, ty, mem, i + 2, cs[2..]))
  }

  /** One conjunct of a macro: a character, COMPARE_2 or COMPARE_4. */
  function Part(target: Target, ty: CharType, mem: seq<Byte>, i: nat, cs: string): Verdict
    requires |cs| == 1 || |cs| == 2 || |cs| == 4
  {
    match |cs|
    case 1 => CharIs(ty, mem, i, cs[0])
    case 2 => Compare2(target, ty, mem, i, cs)
    case _ => Compare4(target, ty, mem, i, cs)
  }

  /** Where the first conjunct of COMPARE_n ends, and where the second one starts: n = 7 overlaps. */
  function FirstEnds(n: nat): nat { if n == 3 then 2 else 4 }

  function SecondStarts(n: nat): nat { if n == 7 then 3 else FirstEnds(n) }

  /**
   COMPARE_nCHARS or COMPARE_nUCHARS with n = |cs|. They are defined for n from 2
   to 8: 2, 2+1, 4, 4+1, 4+2, 4+4 overlapping in one character, and 4+4.
   */
  function Compare(target: Target, ty: CharType, mem: seq<Byte>, i: nat, cs: string): Verdict {
    var n := |cs|;
    if n == 2 || n == 4 then Part(target, ty, mem, i, cs)
    else if 3 <= n <= 8 then
      And(Part(target, ty, mem, i, cs[..FirstEnds(n)]),
          Part(target, ty, mem, i + SecondStarts(n), cs[SecondStarts(n)..]))
    else Fault
  }

  // ---- the macros compare character by character ---------------------------------

  /** The characters from i on are cs, one by one. */
  ghost predicate Same(ty: CharType, mem: seq<Byte>, i: nat, cs: string)
    requires Bytes(ty, i + |cs|) <= |mem|
  {
    forall j: nat :: i <= j < i + |cs| ==> CharAt(ty, mem, j) == cs[j - i] as int
  }

  ghost predicate AllFit(ty: CharType, cs: string) {
    forall j :: 0 <= j < |cs| ==> Fits(ty, cs[j])
  }

  lemma TwoDigits(radix: int, lo: int, hi: int, a: int, b: int)
    requires radix == 0x100 || radix == 0x1_0000 || radix == U32
    requires 0 <= lo < radix && 0 <= a < radix
    ensures lo + radix * hi == a + radix * b <==> lo == a && hi == b
  {
    if radix == 0x100 {
    } else if radix == 0x1_0000 {
    } else {
    }
  }

  lemma PairPacks(ty: CharType, a: char, b: char)
    requires Fits(ty, a) && Fits(ty, b)
    ensures 0 <= Pair(ty, a, b) < if ty == CHAR then 0x1_0000 else U32
  {
  }

  lemma QuadPacks(ty: CharType, a: char, b: char, c: char, d: char)
    requires Fits(ty, a) && Fits(ty, b) && Fits(ty, c) && Fits(ty, d)
    ensures 0 <= Quad(ty, a, b, c, d) < if ty == CHAR then U32 else U64
  {
    PairPacks(ty, a, b);
    PairPacks(ty, c, d);
  }

  lemma PairLoads(ty: CharType, mem: seq<Byte>, i: nat)
    requires Bytes(ty, i + 2) <= |mem|
    ensures InMemory(ty, mem, i) && InMemory(ty, mem, i + 1)
    ensures Load(mem, Bytes(ty, i), Bytes(ty, 2)) == CharAt(ty, mem, i) + Radix(ty) * CharAt(ty, mem, i + 1)
    ensures 0 <= Load(mem, Bytes(ty, i), Bytes(ty, 2)) < Square(ty)
  {
    LoadSplits2(mem, Bytes(ty, i), Bytes(ty, 2));
    LoadInRange(mem, Bytes(ty, i), Bytes(ty, 2));
  }

  lemma Compare2IsPlain(target: Target, ty: CharType, mem: seq<Byte>, i: nat, cs: string)
    requires |cs| == 2 && Bytes(ty, i + 2) <= |mem| && AllFit(ty, cs)
    ensures Compare2(target, ty, mem, i, cs) == Val(Same(ty, mem, i, cs))
  {
    PairLoads(ty, mem, i);
    PairPacks(ty, cs[0], cs[1]);
    TwoDigits(Radix(ty), CharAt(ty, mem, i), CharAt(ty, mem, i + 1), cs[0] as int, cs[1] as int);
  }

  lemma QuadLoads(ty: CharType, mem: seq<Byte>, i: nat)
    requires Bytes(ty, i + 4) <= |mem|
    ensures var lo, hi := Load(mem, Bytes(ty, i), Bytes(ty, 2)), Load(mem, Bytes(ty, i + 2), Bytes(ty, 2));
      Load(mem, Bytes(ty, i), Bytes(ty, 4)) == lo + Square(ty) * hi
  {
    if ty == CHAR { LoadSplits2(mem, i, 4); } else { LoadSplits4(mem, i + i); }
  }

  lemma QuadIsTwoPairs(ty: CharType, mem: seq<Byte>, i: nat, a: char, b: char, c: char, d: char)
    requires Bytes(ty, i + 4) <= |mem| && Fits(ty, a) && Fits(ty, b) && Fits(ty, c) && Fits(ty, d)
    ensures WordIs(ty, mem, i, 4, Quad(ty, a, b, c, d)) ==
      And(WordIs(ty, mem, i, 2, Pair(ty, a, b)), WordIs(ty, mem, i + 2, 2, Pair(ty, c, d)))
  {
    var lo, hi := Load(mem, Bytes(ty, i), Bytes(ty, 2)), Load(mem, Bytes(ty, i + 2), Bytes(ty, 2));
    QuadLoads(ty, mem, i);
    PairPacks(ty, a, b);
    PairLoads(ty, mem, i);
    TwoDigits(Square(ty), lo, hi, Pair(ty, a, b), Pair(ty, c, d));
  }

  /** Two stretches that cover cs, overlapping or not, compare all of it. */
  lemma SameCovers(ty: CharType, mem: seq<Byte>, i: nat, cs: string, m: nat, k: nat)
    requires k <= m <= |cs| && Bytes(ty, i + |cs|) <= |mem|
    ensures Same(ty, mem, i, cs) <==> Same(ty, mem, i, cs[..m]) && Same(ty, mem, i + k, cs[k..])
  {
  }

  lemma Compare4IsPlain(target: Target, ty: CharType, mem: seq<Byte>, i: nat, cs: string)
    requires |cs| == 4 && Bytes(ty, i + 4) <= |mem| && AllFit(ty, cs)
    ensures Compare4(target, ty, mem, i, cs) == Val(Same(ty, mem, i, cs))
  {
    Compare2IsPlain(target, ty, mem, i, cs[..2]);
    Compare2IsPlain(target, ty, mem, i + 2, cs[2..]);
    SameCovers(ty, mem, i, cs, 2, 2);
    if target == LittleEndianX86_64 { QuadIsTwoPairs(ty, mem, i, cs[0], cs[1], cs[2], cs[3]); }
  }

  lemma CharIsPlain(ty: CharType, mem: seq<Byte>, i: nat, cs: string)
    requires |cs| == 1 && Bytes(ty, i + 1) <= |mem|
    ensures CharIs(ty, mem, i, cs[0]) == Val(Same(ty, mem, i, cs))
  {
  }

  lemma PartIsPlain(target: Target, ty: CharType, mem: seq<Byte>, i: nat, cs: string)
    requires |cs| == 1 || |cs| == 2 || |cs| == 4
    requires Bytes(ty, i + |cs|) <= |mem| && AllFit(ty, cs)
    ensures Part(target, ty, mem, i, cs) == Val(Same(ty, mem, i, cs))
  {
    if |cs| == 2 { Compare2IsPlain(target, ty, mem, i, cs); }
    if |cs| == 4 { Compare4IsPlain(target, ty, mem, i, cs); }
  }

  lemma TwoPartsArePlain(target: Target, ty: CharType, mem: seq<Byte>, i: nat, cs: string, m: nat, k: nat)
    requires k <= m <= |cs| && (m == 2 || m == 4) && (|cs| - k == 1 || |cs| - k == 2 || |cs| - k == 4)
    requires Bytes(ty, i + |cs|) <= |mem| && AllFit(ty, cs)
    ensures And(Part(target, ty, mem, i, cs[..m]), Part(target, ty, mem, i + k, cs[k..])) == Val(Same(ty, mem, i, cs))
  {
    hide Part;
    var head, tail := cs[..m], cs[k..];
    PartIsPlain(target, ty, mem, i, head);
    PartIsPlain(target, ty, mem, i + k, tail);
    SameCovers(ty, mem, i, cs, m, k);
  }

  /** For every target and both character types, the packed comparison is the plain one; it never faults in range. */
  lemma CompareIsPlain(target: Target, ty: CharType, mem: seq<Byte>, i: nat, cs: string)
    requires 2 <= |cs| <= 8 && Bytes(ty, i + |cs|) <= |mem| && AllFit(ty, cs)
    ensures Compare(target, ty, mem, i, cs) == Val(Same(ty, mem, i, cs))
  {
    if |cs| == 2 || |cs| == 4 {
      PartIsPlain(target, ty, mem, i, cs);
    } else {
      TwoPartsArePlain(target, ty, mem, i, cs, FirstEnds(|cs|), SecondStarts(|cs|));
    }
  }
}
