/** Machine words as sequences of bits, least significant bit first, and bytes as numbers. */
module Bits {

  type Byte = b: int | 0 <= b < 256

  function Bit(b: bool): nat { if b then 1 else 0 }

  function ToNat(bits: seq<bool>): nat {
    if bits == [] then 0 else Bit(bits[0]) + 2 * ToNat(bits[1..])
  }

  function FromNat(n: nat, width: nat): (r: seq<bool>)
    ensures |r| == width
    decreases width, n
  {
    if width == 0 then [] else [n % 2 == 1] + FromNat(n / 2, width - 1)
  }

  function Zeros(n: nat): (r: seq<bool>)
    ensures |r| == n && forall i :: 0 <= i < n ==> !r[i]
  {
    seq(n, _ => false)
  }

  function Xor(a: seq<bool>, b: seq<bool>): (r: seq<bool>)
    requires |a| == |b|
    ensures |r| == |a| && forall i :: 0 <= i < |a| ==> (r[i] <==> a[i] != b[i])
  {
    seq(|a|, i requires 0 <= i < |a| => a[i] != b[i])
  }

  /** Logical shift right by n. */
  function Shr(a: seq<bool>, n: nat): (r: seq<bool>)
    requires n <= |a|
    ensures |r| == |a|
  {
    a[n..] + Zeros(n)
  }

  function Power2(n: nat): nat { if n == 0 then 1 else 2 * Power2(n - 1) }

  lemma {:induction false} ToNatInRange(bits: seq<bool>)
    ensures ToNat(bits) < Power2(|bits|)
  {
    if bits != [] { ToNatInRange(bits[1..]); }
  }

  /** A word whose top bit is clear is below half its range. */
  lemma {:induction false} TopBitClear(bits: seq<bool>)
    requires bits != [] && !bits[|bits| - 1]
    ensures ToNat(bits) < Power2(|bits| - 1)
  {
    if |bits| > 1 { TopBitClear(bits[1..]); }
  }

  lemma {:induction false} FromNatOfToNat(bits: seq<bool>, width: nat)
    requires |bits| <= width
    ensures FromNat(ToNat(bits), width) == bits + Zeros(width - |bits|)
    decreases width
  {
    if bits != [] {
      FromNatOfToNat(bits[1..], width - 1);
      assert ToNat(bits) / 2 == ToNat(bits[1..]);
    } else if width > 0 {
      FromNatOfToNat([], width - 1);
    }
  }

  lemma {:induction false} ToNatOfFromNat(n: nat, width: nat)
    requires n < Power2(width)
    ensures ToNat(FromNat(n, width)) == n
    decreases width
  {
    if width > 0 { ToNatOfFromNat(n / 2, width - 1); }
  }

  lemma BytesAreEightBits()
    ensures Power2(8) == 256
  {
    assert Power2(4) == 16;
    assert Power2(6) == 64;
  }

  lemma Doubles(a: nat, b: nat)
    ensures 2 * (a * b) == (2 * a) * b
  {
  }

  lemma {:induction false} Power2Adds(m: nat, n: nat)
    ensures Power2(m + n) == Power2(m) * Power2(n)
    decreases m
  {
    if m > 0 {
      Power2Adds(m - 1, n);
      Doubles(Power2(m - 1), Power2(n));
    }
  }

  lemma WordRange()
    ensures Power2(31) == 0x8000_0000 && Power2(32) == 0x1_0000_0000
  {
    BytesAreEightBits();
    Power2Adds(8, 8);
    Power2Adds(16, 8);
    Power2Adds(24, 8);
    assert Power2(32) == 2 * Power2(31);
  }

  /** The number eight bits stand for. */
  function ToByte(bits: seq<bool>): Byte
    requires |bits| == 8
  {
    ToNatInRange(bits);
    BytesAreEightBits();
    ToNat(bits)
  }

  lemma ByteRoundTrip(b: Byte, bits: seq<bool>)
    ensures ToByte(FromNat(b, 8)) == b
    ensures |bits| == 8 ==> FromNat(ToByte(bits), 8) == bits
  {
    BytesAreEightBits();
    ToNatOfFromNat(b, 8);
    if |bits| == 8 { FromNatOfToNat(bits, 8); }
  }
}
