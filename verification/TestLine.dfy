/**
 `parseTestLine` of testRegExp.cpp against a printer of test lines:
 ` "subject", offset, result, (start, end, ...)`.
 */
module TestLine {
  import opened Options
  import opened Bits
  import opened ScanString

  const SPACE := 32
  const QUOTE := 34
  const OPEN := 40
  const CLOSE := 41
  const COMMA := 44
  const MINUS := 45

  // ---- sscanf with %d ------------------------------------------------------------

  function Digits(buf: seq<Byte>, p: nat, acc: nat): (r: (nat, nat))
    ensures p <= r.1
    decreases |buf| - p
  {
    if p < |buf| && IsDigit(buf[p]) then Digits(buf, p + 1, 10 * acc + (buf[p] - 48) as nat) else (acc, p)
  }

  /** A %d conversion at p: the value and where it ends. */
  function ScanInt(buf: seq<Byte>, p: nat): (r: Option<(int, nat)>)
    ensures r.Some? ==> p < r.value.1
  {
    var q := SkipSpaces(buf, p);
    var q1 := if At(buf, q) == 43 || At(buf, q) == MINUS then q + 1 else q;
    var (value, end) := Digits(buf, q1, 0);
    if end == q1 then None else Some((if At(buf, q) == MINUS then 0 - value as int else value as int, end))
  }

  /** "%d, %d": both values, or None when sscanf does not convert two. */
  function ScanPair(buf: seq<Byte>, p: nat): Option<(int, int)> {
    match ScanInt(buf, p)
    case None => None
    case Some((a, q)) =>
      if At(buf, q) != COMMA then None
      else
        match ScanInt(buf, q + 1)
        case None => None
        case Some((b, _)) => Some((a, b))
  }

  // ---- the parser as a function ------------------------------------------------------

  datatype Record = Record(subject: seq<UChar>, offset: int, result: int, expectVector: seq<int>)

  /** The next space, or the zero that ends the line. */
  function ToSpace(line: seq<Byte>, i: nat): (j: nat)
    ensures i <= j
    decreases |line| - i
  {
    if At(line, i) != 0 && At(line, i) != SPACE then ToSpace(line, i + 1) else i
  }

  /** The next comma or closing parenthesis, or the zero that ends the line. */
  function ToSeparator(line: seq<Byte>, i: nat): (j: nat)
    ensures i <= j
    decreases |line| - i
  {
    if At(line, i) != 0 && At(line, i) != COMMA && At(line, i) != CLOSE then ToSeparator(line, i + 1) else i
  }

  /** The loop over the pairs, up to the closing parenthesis or the end of the line; None when it gives up. */
  function Vector(line: seq<Byte>, i: nat, v: seq<int>): Option<seq<int>>
    decreases |line| - i
  {
    if At(line, i) == 0 || At(line, i) == CLOSE then Some(v)
    else
      match ScanPair(line, i)
      case None => None
      case Some((start, end)) =>
        var j := ToSeparator(line, ToSeparator(line, i) + 1);
        if At(line, j) == CLOSE then Some(v + [start, end])
        else if At(line, j) != COMMA then None
        else Vector(line, j + 1, v + [start, end])
  }

  /** The subject, and where the offset is expected. */
  function Header(line: seq<Byte>, n: int): Option<(seq<UChar>, nat)>
    requires n <= |line|
  {
    if At(line, 0) != SPACE || At(line, 1) != QUOTE then None
    else
      var scanned := Scan(line, 2, n - 2, QUOTE, 0, false, []);
      var i := scanned.index + 2;
      if i >= n - 2 || At(line, i) != QUOTE || At(line, i + 1) != COMMA || At(line, i + 2) != SPACE then None
      else Some((scanned.text, i + 3))
  }

  /** Offset, result and vector, from position p on. */
  function Fields(line: seq<Byte>, p: nat): Option<(int, int, seq<int>)> {
    match ScanInt(line, p)
    case None => None
    case Some((offset, _)) =>
      var j := ToSpace(line, p) + 1;
      match ScanInt(line, j)
      case None => None
      case Some((result, _)) =>
        var k := ToSpace(line, j) + 1;
        if At(line, k) != OPEN then None
        else
          match Vector(line, k + 1, [])
          case None => None
          case Some(v) => Some((offset, result, v))
  }

  /** What parseTestLine makes of a line of length n; None for a null pointer. */
  function Parse(line: seq<Byte>, n: int): Option<Record>
    requires n <= |line|
  {
    match Header(line, n)
    case None => None
    case Some((subject, p)) =>
      match Fields(line, p)
      case None => None
      case Some((offset, result, v)) => Some(Record(subject, offset, result, v))
  }

  // ---- the code --------------------------------------------------------------------------

  class RegExpTest {
    var subject: seq<UChar>
    var offset: int
    var result: int
    var expectVector: seq<int>

    constructor ()
      ensures subject == [] && offset == 0 && result == 0 && expectVector == []
    {
      subject, offset, result, expectVector := [], 0, 0, [];
    }

    function Value(): Record
      reads this
    {
      Record(subject, offset, result, expectVector)
    }
  }

  method ParseTestLine(line: seq<Byte>, lineLength: int) returns (test: RegExpTest?)
    requires lineLength <= |line|
    ensures test == null <==> Parse(line, lineLength) == None
    ensures test != null ==> fresh(test) && Parse(line, lineLength) == Some(test.Value())
  {
    hide Scan, ScanInt, Vector, ToSpace, SkipSpaces;
    if At(line, 0) != SPACE || At(line, 1) != QUOTE { return null; }
    var subjectString := new StringBuilder();
    var i := ScanInto(line, 2, lineLength - 2, subjectString, QUOTE);
    i := i + 2;
    if i >= lineLength - 2 || At(line, i) != QUOTE || At(line, i + 1) != COMMA || At(line, i + 2) != SPACE {
      return null;
    }
    i := i + 3;
    var offset := ScanInt(line, i);
    if offset == None { return null; }
    i := SkipToSpace(line, i);
    i := i + 1;
    var matchResult := ScanInt(line, i);
    if matchResult == None { return null; }
    i := SkipToSpace(line, i);
    i := i + 1;
    if At(line, i) != OPEN { return null; }
    i := i + 1;
    test := new RegExpTest();
    test.subject := subjectString.text;
    test.offset := offset.value.0;
    test.result := matchResult.value.0;
    var complete := ReadVector(line, i, test);
    if !complete { test := null; }
  }

  method SkipToSpace(line: seq<Byte>, start: nat) returns (i: nat)
    ensures i == ToSpace(line, start)
  {
    i := start;
    while At(line, i) != 0 && At(line, i) != SPACE
      invariant ToSpace(line, i) == ToSpace(line, start)
      decreases |line| - i
    {
      i := i + 1;
    }
  }

  method SkipToSeparator(line: seq<Byte>, start: nat) returns (i: nat)
    ensures i == ToSeparator(line, start)
  {
    i := start;
    while At(line, i) != 0 && At(line, i) != COMMA && At(line, i) != CLOSE
      invariant ToSeparator(line, i) == ToSeparator(line, start)
      decreases |line| - i
    {
      i := i + 1;
    }
  }

  /** Appends the pairs up to the closing parenthesis or the end of the line; false when the record is deleted. */
  method ReadVector(line: seq<Byte>, at: nat, test: RegExpTest) returns (complete: bool)
    modifies test`expectVector
    ensures complete <==> Vector(line, at, old(test.expectVector)).Some?
    ensures complete ==> Vector(line, at, old(test.expectVector)) == Some(test.expectVector)
  {
    hide ScanPair, ToSeparator;
    var i := at;
    while At(line, i) != 0 && At(line, i) != CLOSE
      invariant Vector(line, i, test.expectVector) == Vector(line, at, old(test.expectVector))
      decreases |line| - i
    {
      var pair := ScanPair(line, i);
      if pair == None { return false; }
      test.expectVector := test.expectVector + [pair.value.0, pair.value.1];
      i := SkipToSeparator(line, i);
      i := SkipToSeparator(line, i + 1);
      if At(line, i) == CLOSE { return true; }
      if At(line, i) == 0 || At(line, i) != COMMA { return false; }
      i := i + 1;
    }
    return true;
  }

  // ---- the printer ---------------------------------------------------------------------------

  function PrintNat(n: nat): (r: seq<Byte>)
    ensures |r| > 0 && forall k :: 0 <= k < |r| ==> IsDigit(r[k])
  {
    (if n < 10 then [] else PrintNat(n / 10)) + [48 + n % 10]
  }

  function PrintInt(n: int): (r: seq<Byte>)
    ensures |r| > 0 && forall k :: 0 <= k < |r| ==> IsDigit(r[k]) || r[k] == MINUS
  {
    if n < 0 then [MINUS] + PrintNat(-n) else PrintNat(n)
  }

  /** The vector as the pairs it is made of. */
  datatype Pairs = NoPair | Pair(a: int, b: int, rest: Pairs)

  function ToPairs(v: seq<int>): Pairs
    requires |v| % 2 == 0
  {
    if v == [] then NoPair else Pair(v[0], v[1], ToPairs(v[2..]))
  }

  function FromPairs(ps: Pairs): seq<int> {
    match ps
    case NoPair => []
    case Pair(a, b, rest) => [a, b] + FromPairs(rest)
  }

  /** The vector's text behind the opening parenthesis: pairs "start, end" joined with ", ", then the closing one. */
  function PrintVector(ps: Pairs): seq<Byte> {
    match ps
    case NoPair => [CLOSE]
    case Pair(a, b, rest) => PrintPair([], a, b, PrintRest(rest))
  }

  function PrintPair(lead: seq<Byte>, a: int, b: int, rest: seq<Byte>): seq<Byte> {
    (lead + PrintInt(a)) + ([COMMA] + (([SPACE] + PrintInt(b)) + rest))
  }

  function PrintRest(ps: Pairs): seq<Byte> {
    match ps
    case NoPair => [CLOSE]
    case Pair(a, b, rest) => [COMMA] + PrintPair([SPACE], a, b, PrintRest(rest))
  }

  function PrintField(n: int, rest: seq<Byte>): seq<Byte> {
    PrintInt(n) + ([COMMA] + ([SPACE] + rest))
  }

  /** The test line ` "subject", offset, result, (vector)` whose subject is written as code. */
  function Print(code: seq<Byte>, r: Record): seq<Byte>
    requires |r.expectVector| % 2 == 0
  {
    PrintSubject(code, PrintField(r.offset, PrintField(r.result, [OPEN] + PrintVector(ToPairs(r.expectVector)))))
  }

  function PrintSubject(code: seq<Byte>, rest: seq<Byte>): seq<Byte> {
    [SPACE] + ([QUOTE] + ((code + [QUOTE]) + ([COMMA] + ([SPACE] + rest))))
  }

  // ---- parsing what was printed ------------------------------------------------------------------

  lemma DigitRead(buf: seq<Byte>, p: nat, acc: nat, n: nat)
    requires p < |buf| && buf[p] == 48 + n % 10 && acc == n / 10
    ensures Digits(buf, p, acc) == Digits(buf, p + 1, n)
  {
  }

  lemma PrintedDigits(buf: seq<Byte>, p: nat, n: nat, front: seq<Byte>)
    requires Holds(buf, p, PrintNat(n)) && front == if n < 10 then [] else PrintNat(n / 10)
    ensures Holds(buf, p, front) && p + |front| < |buf| && buf[p + |front|] == 48 + n % 10
    ensures |PrintNat(n)| == |front| + 1
  {
    HoldsParts(buf, p, front, [48 + n % 10]);
    HoldsAt(buf, p + |front|, [48 + n % 10], 0);
  }

  lemma {:induction false} DigitsOfPrint(buf: seq<Byte>, p: nat, n: nat)
    requires Holds(buf, p, PrintNat(n))
    ensures Digits(buf, p, 0) == Digits(buf, p + |PrintNat(n)|, n)
    decreases n
  {
    hide Digits, Holds, PrintNat;
    var front := if n < 10 then [] else PrintNat(n / 10);
    PrintedDigits(buf, p, n, front);
    if n >= 10 { DigitsOfPrint(buf, p, n / 10); }
    DigitRead(buf, p + |front|, n / 10, n);
  }

  /** lead is nothing or one space. */
  predicate Lead(lead: seq<Byte>) { lead == [] || lead == [SPACE] }

  lemma DigitsEnd(buf: seq<Byte>, p: nat, acc: nat)
    requires !IsDigit(At(buf, p))
    ensures Digits(buf, p, acc) == (acc, p)
  {
  }

  lemma BeforeInt(buf: seq<Byte>, p: nat, lead: seq<Byte>, n: int)
    requires Lead(lead) && Holds(buf, p, lead + PrintInt(n))
    ensures var q := p + |lead|;
      && SkipSpaces(buf, p) == q && Holds(buf, q, PrintInt(n))
      && (if n < 0 then At(buf, q) == MINUS else IsDigit(At(buf, q)))
  {
    var q := p + |lead|;
    HoldsParts(buf, p, lead, PrintInt(n));
    HoldsAt(buf, q, PrintInt(n), 0);
    if lead != [] { HoldsAt(buf, p, lead, 0); }
    assert SkipSpaces(buf, q) == q;
  }

  lemma DigitsOfInt(buf: seq<Byte>, q: nat, n: int)
    requires Holds(buf, q, PrintInt(n)) && !IsDigit(At(buf, q + |PrintInt(n)|))
    ensures Digits(buf, if n < 0 then q + 1 else q, 0) == (if n < 0 then -n else n, q + |PrintInt(n)|)
    ensures |PrintInt(n)| > if n < 0 then 1 else 0
  {
    hide Digits, Holds;
    DigitsEnd(buf, q + |PrintInt(n)|, if n < 0 then -n else n);
    if n < 0 {
      HoldsParts(buf, q, [MINUS], PrintNat(-n));
      DigitsOfPrint(buf, q + 1, -n);
    } else {
      DigitsOfPrint(buf, q, n);
    }
  }

  lemma ScanIntOfPrint(buf: seq<Byte>, p: nat, lead: seq<Byte>, n: int)
    requires Lead(lead) && Holds(buf, p, lead + PrintInt(n)) && !IsDigit(At(buf, p + |lead| + |PrintInt(n)|))
    ensures ScanInt(buf, p) == Some((n, p + |lead| + |PrintInt(n)|))
  {
    hide SkipSpaces, Digits, PrintInt, Holds;
    BeforeInt(buf, p, lead, n);
    DigitsOfInt(buf, p + |lead|, n);
  }

  /** The number the decimal digits of d denote, behind what is read already. */
  function Decimal(d: seq<nat>, acc: int): int {
    if d == [] then acc else Decimal(d[1..], 10 * acc + d[0])
  }

  /** buf holds the decimal digits d at p. */
  ghost predicate HoldsDecimal(buf: seq<Byte>, p: nat, d: seq<nat>) {
    p + |d| <= |buf| && forall k :: 0 <= k < |d| ==> d[k] < 10 && buf[p + k] == 48 + d[k]
  }

  lemma {:induction false} DigitsRead(buf: seq<Byte>, p: nat, acc: nat, d: seq<nat>)
    requires HoldsDecimal(buf, p, d) && !(48 <= At(buf, p + |d|) <= 57)
    ensures Digits(buf, p, acc) == (Decimal(d, acc), p + |d|)
    decreases d
  {
    if d != [] {
      assert buf[p] == buf[p + 0] && d[0] < 10;
      forall k | 0 <= k < |d| - 1 ensures d[1..][k] < 10 && buf[p + 1 + k] == 48 + d[1..][k] {
        assert buf[p + (k + 1)] == 48 + d[k + 1];
      }
      DigitsRead(buf, p + 1, 10 * acc + d[0], d[1..]);
    }
  }

  /** "%d" skips spaces, reads perhaps a sign and then all decimal digits; with no digit it converts nothing. */
  lemma ScanIntReads(buf: seq<Byte>, p: nat, q: nat, d: seq<nat>)
    requires p <= q <= |buf| && (forall k :: p <= k < q ==> buf[k] in {9, 10, 11, 12, 13, 32})
    requires At(buf, q) !in {9, 10, 11, 12, 13, 32}
    requires var r := q + if At(buf, q) in {43, 45} then 1 else 0;
      HoldsDecimal(buf, r, d) && !(48 <= At(buf, r + |d|) <= 57)
    ensures var end := q + (if At(buf, q) in {43, 45} then 1 else 0) + |d|;
      ScanInt(buf, p) ==
        if d == [] then None
        else if At(buf, q) == 45 then Some((0 - Decimal(d, 0), end))
        else Some((Decimal(d, 0), end))
  {
    hide SkipSpaces, Digits, HoldsDecimal, Decimal;
    SpacesSkipped(buf, p, q);
    DigitsRead(buf, if At(buf, q) in {43, 45} then q + 1 else q, 0, d);
  }

  lemma {:induction false} ToSpaceSkips(line: seq<Byte>, p: nat, q: nat)
    requires p <= q <= |line| && forall k :: p <= k < q ==> line[k] != 0 && line[k] != SPACE
    ensures ToSpace(line, p) == ToSpace(line, q)
    decreases q - p
  {
    if p < q { ToSpaceSkips(line, p + 1, q); }
  }

  lemma {:induction false} ToSeparatorSkips(line: seq<Byte>, p: nat, q: nat)
    requires p <= q <= |line| && forall k :: p <= k < q ==> line[k] != 0 && line[k] != COMMA && line[k] != CLOSE
    ensures ToSeparator(line, p) == ToSeparator(line, q)
    decreases q - p
  {
    if p < q { ToSeparatorSkips(line, p + 1, q); }
  }

  lemma IntChars(line: seq<Byte>, p: nat, n: int)
    requires Holds(line, p, PrintInt(n))
    ensures forall k :: p <= k < p + |PrintInt(n)| ==> IsDigit(line[k]) || line[k] == MINUS
  {
    forall k | p <= k < p + |PrintInt(n)| ensures IsDigit(line[k]) || line[k] == MINUS {
      HoldsAt(line, p, PrintInt(n), k - p);
    }
  }

  /** The integer field at p and the cursor behind the ", " that follows it. */
  lemma FieldOfPrint(line: seq<Byte>, p: nat, n: int, rest: seq<Byte>)
    requires Holds(line, p, PrintField(n, rest))
    ensures var q := p + |PrintInt(n)|;
      && ScanInt(line, p) == Some((n, q))
      && ToSpace(line, p) + 1 == q + 2 && Holds(line, q + 2, rest)
  {
    hide ScanInt, Holds;
    var q := p + |PrintInt(n)|;
    HoldsParts(line, p, PrintInt(n), [COMMA] + ([SPACE] + rest));
    HoldsChar(line, q, COMMA, [SPACE] + rest);
    HoldsChar(line, q + 1, SPACE, rest);
    assert [] + PrintInt(n) == PrintInt(n);
    ScanIntOfPrint(line, p, [], n);
    IntChars(line, p, n);
    ToSpaceSkips(line, p, q + 1);
  }

  /** An integer behind an optional space: no separator inside, and the cursor stops right behind it. */
  lemma IntBeforeSeparator(line: seq<Byte>, p: nat, lead: seq<Byte>, n: int)
    requires Lead(lead) && Holds(line, p, lead + PrintInt(n))
    requires At(line, p + |lead + PrintInt(n)|) in {0, CLOSE, COMMA}
    ensures var q := p + |lead + PrintInt(n)|; ScanInt(line, p) == Some((n, q)) && ToSeparator(line, p) == q
    ensures At(line, p) != 0 && At(line, p) != CLOSE
  {
    hide ScanInt, PrintInt, Holds;
    ScanIntOfPrint(line, p, lead, n);
    NoSeparatorInside(line, p, lead, n);
    ToSeparatorSkips(line, p, p + |lead + PrintInt(n)|);
  }

  lemma NoSeparatorInside(line: seq<Byte>, p: nat, lead: seq<Byte>, n: int)
    requires Lead(lead) && Holds(line, p, lead + PrintInt(n))
    ensures p + |lead + PrintInt(n)| <= |line|
    ensures forall k :: p <= k < p + |lead + PrintInt(n)| ==> line[k] != 0 && line[k] != COMMA && line[k] != CLOSE
  {
    hide PrintInt;
    var field := lead + PrintInt(n);
    forall k | p <= k < p + |field| ensures line[k] != 0 && line[k] != COMMA && line[k] != CLOSE {
      HoldsAt(line, p, field, k - p);
    }
  }

  function PairLength(lead: seq<Byte>, a: int, b: int): nat {
    |lead + PrintInt(a)| + 1 + |[SPACE] + PrintInt(b)|
  }

  /** The pair's two integers stand at p, behind lead, with the comma between them. */
  ghost predicate PairAt(line: seq<Byte>, p: nat, lead: seq<Byte>, a: int, b: int) {
    var q := p + |lead + PrintInt(a)|;
    Holds(line, p, lead + PrintInt(a)) && At(line, q) == COMMA && Holds(line, q + 1, [SPACE] + PrintInt(b))
  }

  lemma PrintedPair(line: seq<Byte>, p: nat, lead: seq<Byte>, a: int, b: int, rest: seq<Byte>)
    requires Holds(line, p, PrintPair(lead, a, b, rest))
    ensures PairAt(line, p, lead, a, b) && Holds(line, p + PairLength(lead, a, b), rest)
  {
    var first, second := lead + PrintInt(a), [SPACE] + PrintInt(b);
    HoldsParts(line, p, first, [COMMA] + (second + rest));
    HoldsChar(line, p + |first|, COMMA, second + rest);
    HoldsParts(line, p + |first| + 1, second, rest);
  }

  /** sscanf reads the pair, and the two cursor loops stop right behind it. */
  lemma PairIsRead(line: seq<Byte>, p: nat, lead: seq<Byte>, a: int, b: int)
    requires Lead(lead) && PairAt(line, p, lead, a, b)
    requires At(line, p + PairLength(lead, a, b)) in {0, CLOSE, COMMA}
    ensures ScanPair(line, p) == Some((a, b)) && At(line, p) != 0 && At(line, p) != CLOSE
    ensures ToSeparator(line, ToSeparator(line, p) + 1) == p + PairLength(lead, a, b)
  {
    hide ScanInt, ToSeparator, PrintInt, Holds;
    IntBeforeSeparator(line, p, lead, a);
    IntBeforeSeparator(line, p + |lead + PrintInt(a)| + 1, [SPACE], b);
  }

  /** The loop takes a turn for (a, b) at p and leaves the cursor at q. */
  ghost predicate Turn(line: seq<Byte>, p: nat, a: int, b: int, q: nat) {
    && ScanPair(line, p) == Some((a, b)) && At(line, p) != 0 && At(line, p) != CLOSE
    && q == ToSeparator(line, ToSeparator(line, p) + 1)
  }

  lemma TurnReads(line: seq<Byte>, p: nat, a: int, b: int, q: nat, acc: seq<int>)
    requires Turn(line, p, a, b, q)
    ensures At(line, q) == CLOSE ==> Vector(line, p, acc) == Some(acc + [a, b])
    ensures At(line, q) == COMMA ==> Vector(line, p, acc) == Vector(line, q + 1, acc + [a, b])
    ensures At(line, q) == 0 ==> Vector(line, p, acc) == None
  {
  }

  /** Pairs behind a first one, without what closes the vector. */
  function PrintFront(ps: Pairs): seq<Byte> {
    match ps
    case NoPair => []
    case Pair(a, b, rest) => [COMMA] + PrintPair([SPACE], a, b, PrintFront(rest))
  }

  lemma PairLengths(lead: seq<Byte>, a: int, b: int, rest: seq<Byte>)
    ensures |PrintPair(lead, a, b, rest)| == PairLength(lead, a, b) + |rest|
  {
  }

  /** The text of a pair makes the loop take a turn; what is behind it is the text of the rest. */
  lemma PrintedTurn(line: seq<Byte>, p: nat, lead: seq<Byte>, a: int, b: int, ps: Pairs) returns (q: nat)
    requires Lead(lead) && Holds(line, p, PrintPair(lead, a, b, PrintFront(ps)))
    requires ps.NoPair? ==> At(line, p + |PrintPair(lead, a, b, PrintFront(ps))|) in {0, CLOSE, COMMA}
    ensures Turn(line, p, a, b, q) && q + |PrintFront(ps)| == p + |PrintPair(lead, a, b, PrintFront(ps))|
    ensures ps.Pair? ==> At(line, q) == COMMA && Holds(line, q + 1, PrintPair([SPACE], ps.a, ps.b, PrintFront(ps.rest)))
  {
    hide ScanPair, ToSeparator, Holds, PrintInt, PrintPair;
    PrintedPair(line, p, lead, a, b, PrintFront(ps));
    PairLengths(lead, a, b, PrintFront(ps));
    q := p + PairLength(lead, a, b);
    if ps.Pair? { HoldsChar(line, q, COMMA, PrintPair([SPACE], ps.a, ps.b, PrintFront(ps.rest))); }
    PairIsRead(line, p, lead, a, b);
  }

  /**
   The loop reads printed pairs, and then: at the end of the line it gives up, at
   the closing parenthesis it is done, and behind a comma it starts anew.
   */
  lemma {:induction false} PairsThenWhat(
    line: seq<Byte>, p: nat, lead: seq<Byte>, a: int, b: int, ps: Pairs, acc: seq<int>, end: nat)
    requires Lead(lead) && Holds(line, p, PrintPair(lead, a, b, PrintFront(ps)))
    requires end == p + |PrintPair(lead, a, b, PrintFront(ps))| && At(line, end) in {0, 41, 44}
    ensures Vector(line, p, acc) ==
      if At(line, end) == 0 then None
      else if At(line, end) == 41 then Some(acc + [a, b] + FromPairs(ps))
      else Vector(line, end + 1, acc + [a, b] + FromPairs(ps))
    decreases ps
  {
    hide Vector, Holds, PrintPair, Turn;
    var q := PrintedTurn(line, p, lead, a, b, ps);
    TurnReads(line, p, a, b, q, acc);
    if ps.Pair? {
      PairsThenWhat(line, q + 1, [SPACE], ps.a, ps.b, ps.rest, acc + [a, b], end);
      AppendsPair(acc + [a, b], ps.a, ps.b, FromPairs(ps.rest));
    } else {
      AppendsPair(acc, a, b, []);
    }
  }

  /** The rejected ends of a vector: no separator behind a pair, or a comma and then something else than a pair. */
  lemma VectorRejects(line: seq<Byte>, p: nat, a: int, b: int, ps: Pairs, end: nat)
    requires Holds(line, p, PrintPair([], a, b, PrintFront(ps)))
    requires end == p + |PrintPair([], a, b, PrintFront(ps))|
    ensures At(line, end) == 0 ==> Vector(line, p, []) == None
    ensures At(line, end) == 44 && At(line, end + 1) !in {0, 41} && ScanPair(line, end + 1) == None
      ==> Vector(line, p, []) == None
    ensures At(line, end) == 44 && At(line, end + 1) in {0, 41} ==> Vector(line, p, []) == Some([a, b] + FromPairs(ps))
  {
    hide Holds, PrintPair, ScanPair;
    if At(line, end) in {0, 44} {
      PairsThenWhat(line, p, [], a, b, ps, [], end);
      AppendsPair([], a, b, FromPairs(ps));
    }
  }

  lemma {:induction false} RestIsFront(ps: Pairs)
    ensures PrintRest(ps) == PrintFront(ps) + [CLOSE]
  {
    hide PrintInt, PrintPair;
    if ps.Pair? {
      RestIsFront(ps.rest);
      PairAppends([SPACE], ps.a, ps.b, PrintFront(ps.rest), [CLOSE]);
    }
  }

  lemma PairAppends(lead: seq<Byte>, a: int, b: int, front: seq<Byte>, back: seq<Byte>)
    ensures PrintPair(lead, a, b, front + back) == PrintPair(lead, a, b, front) + back
  {
  }

  /** From a pair on, the loop reads the pair and all the pairs after it. */
  lemma PrintedPairsAreRead(line: seq<Byte>, p: nat, lead: seq<Byte>, a: int, b: int, ps: Pairs, acc: seq<int>)
    requires Lead(lead) && Holds(line, p, PrintPair(lead, a, b, PrintRest(ps)))
    ensures Vector(line, p, acc) == Some(acc + [a, b] + FromPairs(ps))
  {
    hide Vector, Holds, PrintPair, PrintRest, PrintFront;
    RestIsFront(ps);
    PairAppends(lead, a, b, PrintFront(ps), [CLOSE]);
    var text := PrintPair(lead, a, b, PrintFront(ps));
    HoldsParts(line, p, text, [CLOSE]);
    HoldsAt(line, p + |text|, [CLOSE], 0);
    PairsThenWhat(line, p, lead, a, b, ps, acc, p + |text|);
  }

  lemma AppendsPair(acc: seq<int>, a: int, b: int, v: seq<int>)
    ensures acc + [a, b] + v == acc + ([a, b] + v)
    ensures acc == [] ==> acc + [a, b] + v == [a, b] + v
    ensures v == [] ==> acc + [a, b] + v == acc + [a, b]
  {
  }

  lemma {:induction false} PairsAreVector(v: seq<int>)
    requires |v| % 2 == 0
    ensures FromPairs(ToPairs(v)) == v
  {
    if v != [] {
      PairsAreVector(v[2..]);
      assert [v[0], v[1]] + v[2..] == v;
    }
  }

  lemma VectorOfPrint(line: seq<Byte>, p: nat, ps: Pairs)
    requires Holds(line, p, PrintVector(ps))
    ensures Vector(line, p, []) == Some(FromPairs(ps))
  {
    if ps.NoPair? {
      HoldsAt(line, p, [CLOSE], 0);
    } else {
      PrintedPairsAreRead(line, p, [], ps.a, ps.b, ps.rest, []);
      AppendsPair([], ps.a, ps.b, FromPairs(ps.rest));
    }
  }

  /** What the parser needs to find behind the subject. */
  ghost predicate TailParses(line: seq<Byte>, p: nat, r: Record) {
    Fields(line, p) == Some((r.offset, r.result, r.expectVector))
  }

  lemma TwoFieldsOfPrint(line: seq<Byte>, p: nat, a: int, b: int, inner: seq<Byte>, rest: seq<Byte>)
    requires Holds(line, p, PrintField(a, inner)) && inner == PrintField(b, rest)
    ensures ScanInt(line, p).Some? && ScanInt(line, p).value.0 == a
    ensures var j := ToSpace(line, p) + 1;
      && ScanInt(line, j).Some? && ScanInt(line, j).value.0 == b
      && Holds(line, ToSpace(line, j) + 1, rest)
  {
    hide ScanInt, ToSpace, PrintField, Holds, PrintInt;
    FieldOfPrint(line, p, a, inner);
    FieldOfPrint(line, ToSpace(line, p) + 1, b, rest);
  }

  lemma TailOfPrint(line: seq<Byte>, p: nat, r: Record, inner: seq<Byte>, vector: seq<Byte>)
    requires |r.expectVector| % 2 == 0 && vector == PrintVector(ToPairs(r.expectVector))
    requires Holds(line, p, PrintField(r.offset, inner)) && inner == PrintField(r.result, [OPEN] + vector)
    ensures TailParses(line, p, r)
  {
    hide PrintField, PrintVector, Vector, ScanInt, ToSpace, Holds, FromPairs, ToPairs, SkipSpaces;
    TwoFieldsOfPrint(line, p, r.offset, r.result, inner, [OPEN] + vector);
    PairsAreVector(r.expectVector);
    VectorBehindParenthesis(line, ToSpace(line, ToSpace(line, p) + 1) + 1, ToPairs(r.expectVector), vector);
  }

  lemma VectorBehindParenthesis(line: seq<Byte>, k: nat, ps: Pairs, vector: seq<Byte>)
    requires vector == PrintVector(ps) && Holds(line, k, [OPEN] + vector)
    ensures At(line, k) == OPEN && Vector(line, k + 1, []) == Some(FromPairs(ps))
  {
    HoldsChar(line, k, OPEN, vector);
    VectorOfPrint(line, k + 1, ps);
  }

  /** Behind a printed offset and result, anything but the opening parenthesis is rejected. */
  lemma FieldsReject(line: seq<Byte>, p: nat, a: int, b: int, inner: seq<Byte>)
    requires inner == PrintField(b, []) && Holds(line, p, PrintField(a, inner))
    requires At(line, p + |PrintField(a, inner)|) != 40
    ensures Fields(line, p) == None
  {
    hide ScanInt, ToSpace, PrintField, Holds, PrintInt;
    FieldOfPrint(line, p, a, inner);
    var j := ToSpace(line, p) + 1;
    FieldOfPrint(line, j, b, []);
    FieldLength(a, inner);
    FieldLength(b, []);
  }

  lemma FieldLength(n: int, rest: seq<Byte>)
    ensures |PrintField(n, rest)| == |PrintInt(n)| + 2 + |rest|
  {
  }

  /** The line up to the subject's closing quote and the ", " behind it. */
  lemma HeadOfPrint(line: seq<Byte>, n: nat, codes: seq<seq<Byte>>, s: seq<UChar>, rest: seq<Byte>)
    requires SpellsAll(codes, s, QUOTE) && |Flat(codes)| + 3 < n <= |line|
    requires Holds(line, 0, PrintSubject(Flat(codes), rest))
    ensures At(line, 0) == SPACE && At(line, 1) == QUOTE
    ensures Scan(line, 2, n - 2, QUOTE, 0, false, []) == Scanned(|Flat(codes)|, s)
    ensures var i := |Flat(codes)| + 2;
      At(line, i) == QUOTE && At(line, i + 1) == COMMA && At(line, i + 2) == SPACE && Holds(line, i + 3, rest)
  {
    hide Scan, SpellsAll, Flat, Holds;
    var code := Flat(codes);
    var i := |code| + 2;
    HoldsChar(line, 0, SPACE, [QUOTE] + ((code + [QUOTE]) + ([COMMA] + ([SPACE] + rest))));
    HoldsChar(line, 1, QUOTE, (code + [QUOTE]) + ([COMMA] + ([SPACE] + rest)));
    HoldsParts(line, 2, code + [QUOTE], [COMMA] + ([SPACE] + rest));
    HoldsAt(line, 2, code + [QUOTE], |code|);
    HoldsChar(line, i + 1, COMMA, [SPACE] + rest);
    HoldsChar(line, i + 2, SPACE, rest);
    ScanInvertsSpelling(line, 2, n - 2, QUOTE, 0, [], codes, s);
    assert [] + s == s;
  }

  /** Behind a closed subject the header needs a comma and a space that are not the end of the line. */
  lemma HeaderOfSubject(line: seq<Byte>, n: nat, codes: seq<seq<Byte>>, s: seq<UChar>, i: nat)
    requires SpellsAll(codes, s, 34) && i == |Flat(codes)| + 2 && i < n <= |line|
    requires At(line, 0) == 32 && At(line, 1) == 34 && Holds(line, 2, Flat(codes) + [34])
    ensures Header(line, n) == if i + 2 < n && line[i + 1] == 44 && line[i + 2] == 32 then Some((s, i + 3)) else None
  {
    hide Scan, SpellsAll, Flat, Holds;
    HoldsAt(line, 2, Flat(codes) + [34], |Flat(codes)|);
    ScanInvertsSpelling(line, 2, n - 2, 34, 0, [], codes, s);
    assert [] + s == s;
  }

  lemma ParseOfParts(line: seq<Byte>, n: nat, codes: seq<seq<Byte>>, r: Record, rest: seq<Byte>)
    requires SpellsAll(codes, r.subject, QUOTE) && |Flat(codes)| + 4 < n <= |line|
    requires Holds(line, 0, PrintSubject(Flat(codes), rest))
    requires Holds(line, |Flat(codes)| + 5, rest) ==> TailParses(line, |Flat(codes)| + 5, r)
    ensures Parse(line, n) == Some(r)
  {
    hide Scan, SpellsAll, Flat, Vector, ToSpace, ScanInt, PrintSubject, Holds, SkipSpaces;
    HeadOfPrint(line, n, codes, r.subject, rest);
  }

  /**
   Whatever follows the line's terminating zero in the buffer, parsing a printed
   line gives back the record, however its subject is spelled.
   */
  lemma ParseInvertsPrint(codes: seq<seq<Byte>>, r: Record, stale: seq<Byte>)
    requires |r.expectVector| % 2 == 0 && SpellsAll(codes, r.subject, QUOTE)
    ensures var text := Print(Flat(codes), r);
      Parse(text + [0] + stale, |text|) == Some(r)
  {
    var vector := PrintVector(ToPairs(r.expectVector));
    var inner := PrintField(r.result, [OPEN] + vector);
    PrintedLine(codes, r, PrintField(r.offset, inner), inner, vector, stale);
  }

  lemma PrintedLine(
    codes: seq<seq<Byte>>, r: Record, rest: seq<Byte>, inner: seq<Byte>, vector: seq<Byte>, stale: seq<Byte>)
    requires |r.expectVector| % 2 == 0 && SpellsAll(codes, r.subject, QUOTE)
    requires vector == PrintVector(ToPairs(r.expectVector))
    requires inner == PrintField(r.result, [OPEN] + vector) && rest == PrintField(r.offset, inner)
    ensures var text := PrintSubject(Flat(codes), rest);
      Parse(text + [0] + stale, |text|) == Some(r)
  {
    hide Flat, SpellsAll, PrintField, PrintVector, ToPairs, Parse, TailParses;
    var text := PrintSubject(Flat(codes), rest);
    var line := text + [0] + stale;
    assert Holds(line, 0, text);
    if Holds(line, |Flat(codes)| + 5, rest) { TailOfPrint(line, |Flat(codes)| + 5, r, inner, vector); }
    ParseOfParts(line, |text|, codes, r, rest);
  }

  /** For every record with an even-length vector: print, then parse. */
  lemma RoundTrip(r: Record, stale: seq<Byte>)
    requires |r.expectVector| % 2 == 0
    ensures var text := Print(Flat(EscapeAll(r.subject, QUOTE)), r);
      Parse(text + [0] + stale, |text|) == Some(r)
  {
    var codes := EscapeAll(r.subject, QUOTE);
    forall k | 0 <= k < |r.subject| ensures Spells(codes[k], r.subject[k], QUOTE) { EscapeSpells(r.subject[k], QUOTE); }
    ParseInvertsPrint(codes, r, stale);
  }

  lemma PrintedNumbers()
    ensures PrintInt(0) == [48] && PrintInt(3) == [51] && PrintInt(-1) == [45, 49] && PrintInt(40) == [52, 48]
  {
    assert PrintNat(4) == [52];
  }

  lemma PrintedPairExample()
    ensures PrintVector(ToPairs([3, 40])) == [51, 44, 32, 52, 48, 41]
  {
    PrintedNumbers();
    hide PrintInt;
    assert [3, 40][2..] == [];
    assert ToPairs([3, 40]) == Pair(3, 40, NoPair);
  }

  lemma PrintedFields(rest: seq<Byte>)
    ensures PrintField(0, PrintField(-1, rest)) == [48, 44, 32, 45, 49, 44, 32] + rest
  {
    PrintedNumbers();
    hide PrintInt;
  }

  lemma PrintedHead(rest: seq<Byte>)
    ensures PrintSubject([97, 98, 99], rest) == [32, 34, 97, 98, 99, 34, 44, 32] + rest
  {
  }

  /** The text of one line, character by character: ` "abc", 0, -1, (3, 40)`. */
  lemma PrintedExample()
    ensures Print([97, 98, 99], Record([97, 98, 99], 0, -1, [3, 40])) == [32, 34, 97, 98, 99, 34, 44, 32]
      + ([48, 44, 32, 45, 49, 44, 32] + [40, 51, 44, 32, 52, 48, 41])
  {
    hide PrintVector, PrintField, ToPairs, PrintSubject;
    PrintedPairExample();
    PrintedFields([40, 51, 44, 32, 52, 48, 41]);
    PrintedHead([48, 44, 32, 45, 49, 44, 32] + [40, 51, 44, 32, 52, 48, 41]);
    assert [OPEN] + PrintVector(ToPairs([3, 40])) == [40, 51, 44, 32, 52, 48, 41];
  }

  lemma {:induction false} VectorIsEven(line: seq<Byte>, i: nat, v: seq<int>)
    requires |v| % 2 == 0 && Vector(line, i, v).Some?
    ensures |Vector(line, i, v).value| % 2 == 0
    decreases |line| - i
  {
    if At(line, i) != 0 && At(line, i) != CLOSE {
      var (start, end) := ScanPair(line, i).value;
      var j := ToSeparator(line, ToSeparator(line, i) + 1);
      if At(line, j) == COMMA { VectorIsEven(line, j + 1, v + [start, end]); }
    }
  }

  /** Whatever line a record was parsed from, it can be printed, and the printed line parses to it. */
  lemma ParsedRecordsRoundTrip(line: seq<Byte>, n: int, stale: seq<Byte>)
    requires n <= |line| && Parse(line, n).Some?
    ensures var r := Parse(line, n).value;
      && |r.expectVector| % 2 == 0
      && var text := Print(Flat(EscapeAll(r.subject, QUOTE)), r);
         Parse(text + [0] + stale, |text|) == Some(r)
  {
    var scanned := Scan(line, 2, n - 2, QUOTE, 0, false, []);
    var k := ToSpace(line, ToSpace(line, scanned.index + 5) + 1) + 1;
    VectorIsEven(line, k + 1, []);
    RoundTrip(Parse(line, n).value, stale);
  }
}
