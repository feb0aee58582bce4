/**
 `scanString` of testRegExp.cpp: a cursor loop that undoes backslash escapes, and
 the sscanf conversions the test file parser relies on.
 */
module ScanString {
  import opened Options
  import opened Bits

  type UChar = c: int | 0 <= c < 0x1_0000

  const BACKSLASH := 92
  const LOWER_U := 117

  /** Memory holds zeros past its end. */
  function At(buf: seq<Byte>, i: nat): Byte { if i < |buf| then buf[i] else 0 }

  /** `UChar c = buffer[i]`, where char is signed. */
  function SignExtend(b: Byte): UChar { if b < 128 then b else b + 0xFF00 }

  // ---- sscanf ------------------------------------------------------------------

  predicate IsSpace(b: Byte) { 9 <= b <= 13 || b == 32 }

  predicate IsDigit(b: Byte) { 48 <= b <= 57 }

  predicate IsHex(b: Byte) { IsDigit(b) || 65 <= b <= 70 || 97 <= b <= 102 }

  function HexValue(b: Byte): nat
    requires IsHex(b)
  {
    if b <= 57 then b - 48 else if b <= 70 then b - 55 else b - 87
  }

  function SkipSpaces(buf: seq<Byte>, p: nat): (q: nat)
    ensures p <= q
    decreases |buf| - p
  {
    if p < |buf| && IsSpace(buf[p]) then SkipSpaces(buf, p + 1) else p
  }

  /** The value of the hexadecimal digits at p, at most width of them, added to acc; and where they end. */
  function HexDigits(buf: seq<Byte>, p: nat, width: nat, acc: nat): (r: (nat, nat))
    ensures p <= r.1
    decreases width, |buf|
  {
    if width > 0 && IsHex(At(buf, p)) then HexDigits(buf, p + 1, width - 1, 16 * acc + HexValue(At(buf, p)))
    else (acc, p)
  }

  /** sscanf with "%04x": spaces, then at most four characters: sign, 0x, digits. */
  function ScanHex(buf: seq<Byte>, p: nat): Option<int> {
    var q := SkipSpaces(buf, p);
    var signed := At(buf, q) == 43 || At(buf, q) == 45;
    var q1, w1 := if signed then q + 1 else q, if signed then 3 else 4;
    var prefixed := At(buf, q1) == 48 && (At(buf, q1 + 1) == 120 || At(buf, q1 + 1) == 88);
    var q2, w2 := if prefixed then q1 + 2 else q1, if prefixed then w1 - 2 else w1;
    var (value, end) := HexDigits(buf, q2, w2, 0);
    if end == q2 then None else Some(if At(buf, q) == 45 then 0 - value as int else value as int)
  }

  // ---- the loop as a function ----------------------------------------------------

  /** The switch over escaped characters other than u. */
  function Unescape(c: UChar): UChar {
    match c
    case 48 => 0     // \0
    case 97 => 7     // \a
    case 98 => 8     // \b
    case 102 => 12   // \f
    case 110 => 10   // \n
    case 114 => 13   // \r
    case 116 => 9    // \t
    case 118 => 11   // \v
    case _ => c      // \\, \? and every other character stand for themselves
  }

  datatype Scanned = Scanned(index: int, text: seq<UChar>)

  /** What the loop makes of the n bytes at start, from position i on. */
  function Scan(buf: seq<Byte>, start: nat, n: int, term: Byte, i: nat, escape: bool, text: seq<UChar>): (r: Scanned)
    requires start + n <= |buf|
    ensures -1 <= r.index < n || r.index == -1
    decreases n - i
  {
    if i >= n then Scanned(-1, text)
    else
      var c := SignExtend(buf[start + i]);
      if escape then
        if c == LOWER_U then
          if i + 4 >= n then Scanned(-1, text)
          else
            match ScanHex(buf, start + i + 1)
            case None => Scanned(-1, text)
            case Some(value) => Scan(buf, start, n, term, i + 5, false, text + [value % 0x1_0000])
        else Scan(buf, start, n, term, i + 1, false, text + [Unescape(c)])
      else if c == term then Scanned(i, text)
      else if c == BACKSLASH then Scan(buf, start, n, term, i + 1, true, text)
      else Scan(buf, start, n, term, i + 1, false, text + [c])
  }

  /** An index is that of an unescaped terminator, at or behind the position; text only grows. */
  lemma {:induction false} ScanFindsTerminator(
    buf: seq<Byte>, start: nat, n: int, term: Byte, i: nat, escape: bool, text: seq<UChar>)
    requires start + n <= |buf| && term < 128
    ensures var r := Scan(buf, start, n, term, i, escape, text);
      && text <= r.text
      && (r.index >= 0 ==> i <= r.index && buf[start + r.index] == term)
    decreases n - i
  {
    if i < n {
      var c := SignExtend(buf[start + i]);
      if escape {
        if c != LOWER_U {
          ScanFindsTerminator(buf, start, n, term, i + 1, false, text + [Unescape(c)]);
        } else if i + 4 < n && ScanHex(buf, start + i + 1).Some? {
          var value := ScanHex(buf, start + i + 1).value;
          ScanFindsTerminator(buf, start, n, term, i + 5, false, text + [value % 0x1_0000]);
        }
      } else if c == BACKSLASH && c != term {
        ScanFindsTerminator(buf, start, n, term, i + 1, true, text);
      } else if c != term {
        ScanFindsTerminator(buf, start, n, term, i + 1, false, text + [c]);
      }
    }
  }

  // ---- the code --------------------------------------------------------------------

  class StringBuilder {
    var text: seq<UChar>

    constructor ()
      ensures text == []
    {
      text := [];
    }

    method Append(c: UChar)
      modifies this
      ensures text == old(text) + [c]
    {
      text := text + [c];
    }
  }

  method ScanInto(buf: seq<Byte>, start: nat, bufferLength: int, builder: StringBuilder, termChar: Byte)
    returns (r: int)
    requires start + bufferLength <= |buf|
    modifies builder
    ensures Scanned(r, builder.text) == Scan(buf, start, bufferLength, termChar, 0, false, old(builder.text))
  {
    var escape := false;
    var i := 0;
    while i < bufferLength
      invariant Scan(buf, start, bufferLength, termChar, i, escape, builder.text)
        == Scan(buf, start, bufferLength, termChar, 0, false, old(builder.text))
      decreases bufferLength - i
    {
      var c := SignExtend(buf[start + i]);
      if escape {
        if c == LOWER_U {
          if i + 4 >= bufferLength { return -1; }
          var charValue := ScanHex(buf, start + i + 1);
          if charValue == None { return -1; }
          c := charValue.value % 0x1_0000;
          i := i + 4;
        } else {
          c := Unescape(c);
        }
        builder.Append(c);
        escape := false;
      } else {
        if c == termChar { return i; }
        if c == BACKSLASH {
          escape := true;
        } else {
          builder.Append(c);
        }
      }
      i := i + 1;
    }
    return -1;
  }

  // ---- spellings ---------------------------------------------------------------------

  function HexNumber(d: seq<Byte>): nat
    requires |d| == 4 && forall k :: 0 <= k < 4 ==> IsHex(d[k])
  {
    16 * (16 * (16 * HexValue(d[0]) + HexValue(d[1])) + HexValue(d[2])) + HexValue(d[3])
  }

  /** The character that byte b is by itself: char is signed, and the bytes from 128 on become 0xFF80 to 0xFFFF. */
  predicate Plain(b: Byte, c: UChar) { c == if b < 128 then b else 65280 + b }

  /** The character that byte b stands for behind a backslash. */
  predicate Escaped(b: Byte, c: UChar) {
    && (b == 48 ==> c == 0)     // 0: null
    && (b == 97 ==> c == 7)     // a: alert
    && (b == 98 ==> c == 8)     // b: backspace
    && (b == 116 ==> c == 9)    // t: tab
    && (b == 110 ==> c == 10)   // n: line feed
    && (b == 118 ==> c == 11)   // v: vertical tab
    && (b == 102 ==> c == 12)   // f: form feed
    && (b == 114 ==> c == 13)   // r: carriage return
    && (b !in {48, 97, 98, 116, 110, 118, 102, 114} ==> Plain(b, c))
  }

  /** Byte b is the hexadecimal digit of v: 0 to 9, a to f or A to F. */
  predicate IsDigitOf(b: Byte, v: int) {
    if v < 10 then 0 <= v && b == 48 + v else v < 16 && (b == 97 + (v - 10) || b == 65 + (v - 10))
  }

  /** The four hexadecimal digits of c, most significant first. */
  predicate AreDigitsOf(d: seq<Byte>, c: UChar) {
    && |d| == 4
    && IsDigitOf(d[0], c / 4096) && IsDigitOf(d[1], c / 256 % 16) && IsDigitOf(d[2], c / 16 % 16)
    && IsDigitOf(d[3], c % 16)
  }

  /** The ways to write character c inside a pattern or string that term ends: itself, a backslash escape, or \uXXXX. */
  predicate Spells(code: seq<Byte>, c: UChar, term: Byte) {
    || (|code| == 1 && code[0] !in {0, 92, term} && Plain(code[0], c))
    || (|code| == 2 && code[0] == 92 && code[1] !in {0, 117} && Escaped(code[1], c))
    || (|code| == 6 && code[0] == 92 && code[1] == 117 && AreDigitsOf(code[2..], c))
  }

  predicate SpellsAll(codes: seq<seq<Byte>>, s: seq<UChar>, term: Byte) {
    |codes| == |s| && forall k :: 0 <= k < |s| ==> Spells(codes[k], s[k], term)
  }

  function Flat(codes: seq<seq<Byte>>): seq<Byte> {
    if codes == [] then [] else codes[0] + Flat(codes[1..])
  }

  /** buf holds code at position p. */
  ghost predicate Holds(buf: seq<Byte>, p: nat, code: seq<Byte>) {
    p + |code| <= |buf| && forall k :: 0 <= k < |code| ==> buf[p + k] == code[k]
  }

  lemma HoldsAt(buf: seq<Byte>, p: nat, code: seq<Byte>, k: nat)
    requires Holds(buf, p, code) && k < |code|
    ensures buf[p + k] == code[k]
  {
  }

  lemma HoldsParts(buf: seq<Byte>, p: nat, a: seq<Byte>, b: seq<Byte>)
    requires Holds(buf, p, a + b)
    ensures Holds(buf, p, a) && Holds(buf, p + |a|, b)
  {
    forall k | 0 <= k < |a| ensures buf[p + k] == a[k] { assert (a + b)[k] == a[k]; }
    forall k | 0 <= k < |b| ensures buf[p + |a| + k] == b[k] {
      assert (a + b)[|a| + k] == b[k];
      assert buf[p + (|a| + k)] == b[k];
    }
  }

  lemma HoldsChar(buf: seq<Byte>, p: nat, c: Byte, rest: seq<Byte>)
    requires Holds(buf, p, [c] + rest)
    ensures At(buf, p) == c && Holds(buf, p + 1, rest)
  {
    HoldsAt(buf, p, [c] + rest, 0);
    HoldsParts(buf, p, [c], rest);
  }

  lemma FourHexDigits(buf: seq<Byte>, p: nat)
    requires p + 4 <= |buf| && forall k :: p <= k < p + 4 ==> IsHex(buf[k])
    ensures ScanHex(buf, p) == Some(HexNumber(buf[p..p + 4]))
    ensures HexNumber(buf[p..p + 4]) < 0x1_0000
  {
    hide HexDigits, HexNumber, HexValue;
    assert SkipSpaces(buf, p) == p;
    HexDigitsOfFour(buf, p, buf[p..p + 4]);
    HexNumberFits(buf[p..p + 4]);
  }

  lemma HexNumberFits(d: seq<Byte>)
    requires |d| == 4 && forall k :: 0 <= k < 4 ==> IsHex(d[k])
    ensures HexNumber(d) < 0x1_0000
  {
  }

  lemma HexDigitsOfFour(buf: seq<Byte>, p: nat, d: seq<Byte>)
    requires p + 4 <= |buf| && d == buf[p..p + 4] && forall k :: 0 <= k < 4 ==> IsHex(d[k])
    ensures HexDigits(buf, p, 4, 0) == (HexNumber(d), p + 4)
  {
    assert d[0] == buf[p] && d[1] == buf[p + 1] && d[2] == buf[p + 2] && d[3] == buf[p + 3];
    var v0 := HexValue(d[0]);
    var v1 := 16 * v0 + HexValue(d[1]);
    var v2 := 16 * v1 + HexValue(d[2]);
    HexStep(buf, p, 4, 0);
    HexStep(buf, p + 1, 3, v0);
    HexStep(buf, p + 2, 2, v1);
    HexStep(buf, p + 3, 1, v2);
  }

  lemma HexStep(buf: seq<Byte>, p: nat, width: nat, acc: nat)
    requires width > 0 && p < |buf| && IsHex(buf[p])
    ensures HexDigits(buf, p, width, acc) == HexDigits(buf, p + 1, width - 1, 16 * acc + HexValue(buf[p]))
  {
  }

  lemma DigitOf(b: Byte, v: int)
    requires IsDigitOf(b, v)
    ensures IsHex(b) && HexValue(b) == v
  {
  }

  lemma DigitsOf(d: seq<Byte>, c: UChar)
    requires AreDigitsOf(d, c)
    ensures (forall k :: 0 <= k < 4 ==> IsHex(d[k])) && HexNumber(d) == c
  {
    hide IsDigitOf, HexValue, IsHex;
    DigitOf(d[0], c / 4096);
    DigitOf(d[1], c / 256 % 16);
    DigitOf(d[2], c / 16 % 16);
    DigitOf(d[3], c % 16);
    FourDigits(c);
  }

  lemma FourDigits(c: UChar)
    ensures c == 16 * (16 * (16 * (c / 4096) + c / 256 % 16) + c / 16 % 16) + c % 16
  {
    assert c / 16 / 16 == c / 256 && c / 256 / 16 == c / 4096;
  }

  lemma UnicodeDigits(buf: seq<Byte>, q: nat, code: seq<Byte>, c: UChar)
    requires |code| == 6 && Holds(buf, q, code) && AreDigitsOf(code[2..], c)
    ensures ScanHex(buf, q + 2) == Some(c)
  {
    var p := q + 2;
    DigitsOf(code[2..], c);
    hide AreDigitsOf;
    HoldsParts(buf, q, code[..2], code[2..]);
    assert code == code[..2] + code[2..];
    assert buf[p..p + 4] == code[2..];
    forall k | p <= k < p + 4 ensures IsHex(buf[k]) { assert buf[p..p + 4][k - p] == buf[k]; }
    FourHexDigits(buf, p);
  }

  lemma EscapedIs(b: Byte, c: UChar)
    requires Escaped(b, c) && b != 117
    ensures Unescape(SignExtend(b)) == c && SignExtend(b) != LOWER_U
  {
  }

  /** One spelled character: the scan goes on behind it, with the character appended. */
  lemma ScanOne(buf: seq<Byte>, start: nat, n: nat, term: Byte, i: nat, text: seq<UChar>, code: seq<Byte>, c: UChar)
    requires start + n <= |buf| && i + |code| <= n && term != BACKSLASH && term < 128
    requires Holds(buf, start + i, code) && Spells(code, c, term)
    ensures Scan(buf, start, n, term, i, false, text) == Scan(buf, start, n, term, i + |code|, false, text + [c])
  {
    hide ScanHex, Unescape, Escaped, AreDigitsOf;
    HoldsAt(buf, start + i, code, 0);
    if |code| > 1 {
      HoldsAt(buf, start + i, code, 1);
      assert Scan(buf, start, n, term, i, false, text) == Scan(buf, start, n, term, i + 1, true, text);
    }
    if |code| == 2 { EscapedIs(code[1], c); }
    if |code| == 6 { UnicodeDigits(buf, start + i, code, c); }
  }

  /** The first of several spelled characters. */
  lemma ScanFirst(
    buf: seq<Byte>, start: nat, n: nat, term: Byte, i: nat, text: seq<UChar>, codes: seq<seq<Byte>>, s: seq<UChar>)
    requires codes != [] && SpellsAll(codes, s, term) && term != BACKSLASH && term < 128
    requires start + n <= |buf| && i + |Flat(codes)| <= n && Holds(buf, start + i, Flat(codes))
    ensures Flat(codes) == codes[0] + Flat(codes[1..]) && SpellsAll(codes[1..], s[1..], term)
    ensures Holds(buf, start + i + |codes[0]|, Flat(codes[1..]))
    ensures Scan(buf, start, n, term, i, false, text) == Scan(buf, start, n, term, i + |codes[0]|, false, text + [s[0]])
  {
    hide Scan, Holds, Spells;
    HoldsParts(buf, start + i, codes[0], Flat(codes[1..]));
    ScanOne(buf, start, n, term, i, text, codes[0], s[0]);
  }

  /** However s is spelled, the scan arrives behind the spelling with exactly s appended. */
  lemma {:induction false} ScanReadsSpelling(
    buf: seq<Byte>, start: nat, n: nat, term: Byte, i: nat, text: seq<UChar>, codes: seq<seq<Byte>>, s: seq<UChar>)
    requires SpellsAll(codes, s, term) && term != BACKSLASH && term < 128
    requires start + n <= |buf| && i + |Flat(codes)| <= n && Holds(buf, start + i, Flat(codes))
    ensures Scan(buf, start, n, term, i, false, text) == Scan(buf, start, n, term, i + |Flat(codes)|, false, text + s)
    decreases codes
  {
    hide Scan, Holds, Spells;
    if codes == [] {
      assert text + s == text;
    } else {
      ScanFirst(buf, start, n, term, i, text, codes, s);
      ScanReadsSpelling(buf, start, n, term, i + |codes[0]|, text + [s[0]], codes[1..], s[1..]);
      assert text + [s[0]] + s[1..] == text + s;
    }
  }

  /** However s is spelled, scanning the spelling gives back exactly s and the terminator's index. */
  lemma ScanInvertsSpelling(
    buf: seq<Byte>, start: nat, n: nat, term: Byte, i: nat, text: seq<UChar>, codes: seq<seq<Byte>>, s: seq<UChar>)
    requires SpellsAll(codes, s, term) && term != BACKSLASH && term < 128
    requires start + n <= |buf| && i + |Flat(codes)| < n && Holds(buf, start + i, Flat(codes) + [term])
    ensures Scan(buf, start, n, term, i, false, text) == Scanned(i + |Flat(codes)|, text + s)
  {
    hide SpellsAll, Flat, Holds;
    HoldsParts(buf, start + i, Flat(codes), [term]);
    HoldsAt(buf, start + i + |Flat(codes)|, [term], 0);
    ScanReadsSpelling(buf, start, n, term, i, text, codes, s);
  }

  /** What follows the spelled part stops the scan: its end, a lone backslash, or \u without a readable number. */
  ghost predicate Breaks(buf: seq<Byte>, start: nat, n: nat, q: nat)
    requires start + n <= |buf| && q <= n
  {
    || q == n
    || (q + 1 == n && buf[start + q] == 92)
    || (q + 2 <= n && buf[start + q] == 92 && buf[start + q + 1] == 117
        && (n < q + 6 || ScanHex(buf, start + q + 2) == None))
  }

  /** Without a terminator behind it a spelled text is appended and the scan fails; so it does at an unreadable \u. */
  lemma ScanFails(
    buf: seq<Byte>, start: nat, n: nat, term: Byte, i: nat, text: seq<UChar>, codes: seq<seq<Byte>>, s: seq<UChar>)
    requires SpellsAll(codes, s, term) && term != BACKSLASH && term < 128
    requires start + n <= |buf| && i + |Flat(codes)| <= n && Holds(buf, start + i, Flat(codes))
    requires Breaks(buf, start, n, i + |Flat(codes)|)
    ensures Scan(buf, start, n, term, i, false, text) == Scanned(-1, text + s)
  {
    hide SpellsAll, Flat, Holds, ScanHex;
    ScanReadsSpelling(buf, start, n, term, i, text, codes, s);
    var q := i + |Flat(codes)|;
    if q < n {
      assert Scan(buf, start, n, term, q, false, text + s) == Scan(buf, start, n, term, q + 1, true, text + s);
    }
  }

  // ---- what %04x reads -----------------------------------------------------------------

  /** The number the digits of d denote, behind what is read already. */
  function Denoted(d: seq<nat>, acc: int): int {
    if d == [] then acc else Denoted(d[1..], 16 * acc + d[0])
  }

  /** buf holds the hexadecimal digits d at p. */
  ghost predicate HoldsDigits(buf: seq<Byte>, p: nat, d: seq<nat>) {
    p + |d| <= |buf| && forall k :: 0 <= k < |d| ==> IsDigitOf(buf[p + k], d[k])
  }

  lemma HoldsDigitsRest(buf: seq<Byte>, p: nat, d: seq<nat>)
    requires d != [] && HoldsDigits(buf, p, d)
    ensures IsDigitOf(buf[p], d[0]) && HoldsDigits(buf, p + 1, d[1..])
  {
    forall k | 0 <= k < |d| - 1 ensures IsDigitOf(buf[p + 1 + k], d[1..][k]) {
      assert buf[p + 1 + k] == buf[p + (k + 1)];
    }
  }

  lemma {:induction false} HexDigitsRead(buf: seq<Byte>, p: nat, width: nat, acc: nat, d: seq<nat>)
    requires |d| <= width && HoldsDigits(buf, p, d) && (|d| == width || !IsHex(At(buf, p + |d|)))
    ensures HexDigits(buf, p, width, acc) == (Denoted(d, acc), p + |d|)
    decreases d
  {
    if d != [] {
      HoldsDigitsRest(buf, p, d);
      DigitOf(buf[p], d[0]);
      HexDigitsRead(buf, p + 1, width - 1, 16 * acc + d[0], d[1..]);
    }
  }

  lemma {:induction false} SpacesSkipped(buf: seq<Byte>, p: nat, q: nat)
    requires p <= q <= |buf| && (forall k :: p <= k < q ==> buf[k] in {9, 10, 11, 12, 13, 32})
    requires At(buf, q) !in {9, 10, 11, 12, 13, 32}
    ensures SkipSpaces(buf, p) == q
    decreases q - p
  {
    if p < q { SpacesSkipped(buf, p + 1, q); }
  }

  /** At p: spaces up to q, then perhaps a sign, then perhaps 0x, as far as the four characters go; then at digits. */
  ghost predicate NumberFrom(buf: seq<Byte>, p: nat, q: nat, sign: nat, prefix: nat) {
    && p <= q <= |buf| && (forall k :: p <= k < q ==> buf[k] in {9, 10, 11, 12, 13, 32})
    && At(buf, q) !in {9, 10, 11, 12, 13, 32}
    && sign == (if At(buf, q) in {43, 45} then 1 else 0)
    && prefix == (if At(buf, q + sign) == 48 && At(buf, q + sign + 1) in {88, 120} then 2 else 0)
  }

  /**
   "%04x" skips spaces and then reads at most four characters: a sign, 0x or 0X, and
   as many hexadecimal digits as there are; with no digit it converts nothing.
   */
  lemma ScanHexReads(buf: seq<Byte>, p: nat, q: nat, sign: nat, prefix: nat, d: seq<nat>)
    requires NumberFrom(buf, p, q, sign, prefix)
    requires sign + prefix + |d| <= 4 && HoldsDigits(buf, q + sign + prefix, d)
    requires sign + prefix + |d| == 4 || !IsHex(At(buf, q + sign + prefix + |d|))
    ensures ScanHex(buf, p) ==
      if d == [] then None else if At(buf, q) == 45 then Some(0 - Denoted(d, 0)) else Some(Denoted(d, 0))
  {
    hide SkipSpaces, HexDigits, HoldsDigits, Denoted;
    SpacesSkipped(buf, p, q);
    HexDigitsRead(buf, q + sign + prefix, 4 - sign - prefix, 0, d);
  }

  /** The number behind \u is taken modulo 65536, also a negative one, and four bytes are passed in any case. */
  lemma UnicodeWraps(
    buf: seq<Byte>, start: nat, n: nat, term: Byte, i: nat, text: seq<UChar>, value: int, turns: int, c: UChar)
    requires start + n <= |buf| && i + 6 <= n && term != BACKSLASH
    requires buf[start + i] == 92 && buf[start + i + 1] == 117
    requires ScanHex(buf, start + i + 2) == Some(value) && value == c + 65536 * turns
    ensures Scan(buf, start, n, term, i, false, text) == Scan(buf, start, n, term, i + 6, false, text + [c])
  {
    hide ScanHex;
    assert Scan(buf, start, n, term, i, false, text) == Scan(buf, start, n, term, i + 1, true, text);
    assert value % 0x1_0000 == c;
  }

  function HexDigit(v: nat): (b: Byte)
    requires v < 16
    ensures IsDigitOf(b, v)
  {
    if v < 10 then 48 + v else 87 + v
  }

  /** A printer: printable characters as they are, everything else as \uXXXX. */
  function Escape(c: UChar, term: Byte): seq<Byte> {
    if 32 <= c < 127 && c != term && c != BACKSLASH then [c]
    else [BACKSLASH, LOWER_U, HexDigit(c / 4096), HexDigit(c / 256 % 16), HexDigit(c / 16 % 16), HexDigit(c % 16)]
  }

  /** Every character has a spelling, so the round trip covers every string. */
  lemma EscapeSpells(c: UChar, term: Byte)
    ensures Spells(Escape(c, term), c, term)
  {
    var code := Escape(c, term);
    if |code| == 6 {
      assert code[2..] == [HexDigit(c / 4096), HexDigit(c / 256 % 16), HexDigit(c / 16 % 16), HexDigit(c % 16)];
    }
  }

  function EscapeAll(s: seq<UChar>, term: Byte): (r: seq<seq<Byte>>)
    ensures |r| == |s| && forall k :: 0 <= k < |s| ==> r[k] == Escape(s[k], term)
  {
    if s == [] then [] else [Escape(s[0], term)] + EscapeAll(s[1..], term)
  }

  lemma HoldsMiddle(buf: seq<Byte>, before: seq<Byte>, code: seq<Byte>, after: seq<Byte>)
    requires buf == before + code + after
    ensures Holds(buf, |before|, code)
  {
    forall k | 0 <= k < |code| ensures buf[|before| + k] == code[k] { assert (before + code)[|before| + k] == code[k]; }
  }

  lemma ScanInvertsSpellingBetween(
    buf: seq<Byte>, before: seq<Byte>, code: seq<Byte>, after: seq<Byte>, term: Byte,
    text: seq<UChar>, codes: seq<seq<Byte>>, s: seq<UChar>)
    requires SpellsAll(codes, s, term) && term != BACKSLASH && term < 128
    requires code == Flat(codes) && buf == before + (code + [term]) + after
    ensures Scan(buf, |before|, |code| + 1 + |after|, term, 0, false, text) == Scanned(|code|, text + s)
  {
    hide Scan, SpellsAll, Flat, Holds;
    HoldsMiddle(buf, before, code + [term], after);
    ScanInvertsSpelling(buf, |before|, |code| + 1 + |after|, term, 0, text, codes, s);
  }

  lemma EscapeAllSpells(codes: seq<seq<Byte>>, s: seq<UChar>, term: Byte)
    requires codes == EscapeAll(s, term)
    ensures SpellsAll(codes, s, term)
  {
    forall k | 0 <= k < |s| ensures Spells(codes[k], s[k], term) { EscapeSpells(s[k], term); }
  }

  /** For every string, scanning its escaped form up to the terminator appends exactly the string. */
  lemma ScanInvertsEscape(
    s: seq<UChar>, term: Byte, code: seq<Byte>, before: seq<Byte>, after: seq<Byte>, text: seq<UChar>)
    requires term != BACKSLASH && term < 128 && code == Flat(EscapeAll(s, term))
    ensures Scan(before + (code + [term]) + after, |before|, |code| + 1 + |after|, term, 0, false, text)
      == Scanned(|code|, text + s)
  {
    var codes := EscapeAll(s, term);
    EscapeAllSpells(codes, s, term);
    ScanInvertsSpellingBetween(before + (code + [term]) + after, before, code, after, term, text, codes, s);
  }
}
