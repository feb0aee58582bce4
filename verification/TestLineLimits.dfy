/**
 Lines that parseTestLine of testRegExp.cpp accepts or reads further than their
 form promises: a subject without a closing quote, and bytes behind the zero that
 ends the line.
 */
module TestLineLimits {
  import opened Options
  import opened Bits
  import opened ScanString
  import opened TestLine

  // ---- no closing quote ----------------------------------------------------------------

  lemma NoQuoteNoIndex(line: seq<Byte>, n: int)
    requires n <= |line| && forall k :: 2 <= k < n ==> line[k] != QUOTE
    ensures n >= 2 ==> Scan(line, 2, n - 2, QUOTE, 0, false, []).index == -1
  {
    if n >= 2 { ScanFindsTerminator(line, 2, n - 2, QUOTE, 0, false, []); }
  }

  /**
   Exactly when a line is accepted although the scan finds no closing quote, so that
   its -1 becomes the position of the opening one: the subject starts with a comma
   and a space, and the fields can be read from inside it.
   */
  lemma UnterminatedIsAcceptedIff(line: seq<Byte>, n: int)
    requires n <= |line| && Scan(line, 2, n - 2, QUOTE, 0, false, []).index == -1
    ensures Parse(line, n).Some? <==>
      && At(line, 0) == SPACE && At(line, 1) == QUOTE && n > 3
      && At(line, 2) == COMMA && At(line, 3) == SPACE && Fields(line, 4).Some?
  {
    hide Scan, Fields;
  }

  /** A line of that kind: space, quote, and then ", 5, 3, ()" without another quote. */
  lemma UnterminatedCanBeAccepted()
    ensures var line := [SPACE, QUOTE, COMMA, SPACE, 53, COMMA, SPACE, 51, COMMA, SPACE, OPEN, CLOSE];
      |line| == 12 && (forall k :: 2 <= k < 12 ==> line[k] != QUOTE) && Parse(line, 12).Some?
  {
    var line := [SPACE, QUOTE, COMMA, SPACE, 53, COMMA, SPACE, 51, COMMA, SPACE, OPEN, CLOSE];
    NoQuoteNoIndex(line, 12);
    OneDigitField(line, 4);
    OneDigitField(line, 7);
    assert Vector(line, 11, []) == Some([]);
    UnterminatedIsAcceptedIff(line, 12);
  }

  lemma OneDigitField(line: seq<Byte>, p: nat)
    requires p + 2 < |line| && IsDigit(line[p]) && line[p + 1] == COMMA && line[p + 2] == SPACE
    ensures ScanInt(line, p).Some? && ToSpace(line, p) == p + 2
  {
    assert SkipSpaces(line, p) == p;
    assert Digits(line, p, 0) == Digits(line, p + 1, (line[p] - 48) as nat);
    assert ToSpace(line, p) == ToSpace(line, p + 1) == ToSpace(line, p + 2);
  }

  // ---- bytes behind the line ------------------------------------------------------------

  /** line holds text and the zero that ends it; text holds no zero. */
  ghost predicate Ends(line: seq<Byte>, text: seq<Byte>) {
    && |text| < |line| && line[|text|] == 0
    && forall k :: 0 <= k < |text| ==> line[k] == text[k] && text[k] != 0
  }

  lemma AtAgrees(line: seq<Byte>, text: seq<Byte>, p: nat)
    requires Ends(line, text) && p <= |text|
    ensures At(line, p) == At(text, p) && (p < |text| <==> At(text, p) != 0)
  {
  }

  lemma {:induction false} SkipSpacesAgrees(line: seq<Byte>, text: seq<Byte>, p: nat)
    requires Ends(line, text) && p <= |text|
    ensures SkipSpaces(line, p) == SkipSpaces(text, p) <= |text|
    decreases |text| - p
  {
    AtAgrees(line, text, p);
    if p < |text| && IsSpace(text[p]) { SkipSpacesAgrees(line, text, p + 1); }
  }

  lemma {:induction false} DigitsAgree(line: seq<Byte>, text: seq<Byte>, p: nat, acc: nat)
    requires Ends(line, text) && p <= |text|
    ensures Digits(line, p, acc) == Digits(text, p, acc) && Digits(text, p, acc).1 <= |text|
    decreases |text| - p
  {
    AtAgrees(line, text, p);
    if p < |text| && IsDigit(text[p]) { DigitsAgree(line, text, p + 1, 10 * acc + (text[p] - 48) as nat); }
  }

  lemma ScanIntAgrees(line: seq<Byte>, text: seq<Byte>, p: nat)
    requires Ends(line, text) && p <= |text|
    ensures ScanInt(line, p) == ScanInt(text, p)
    ensures ScanInt(text, p).Some? ==> ScanInt(text, p).value.1 <= |text|
  {
    hide SkipSpaces, Digits;
    SkipSpacesAgrees(line, text, p);
    var q := SkipSpaces(text, p);
    AtAgrees(line, text, q);
    DigitsAgree(line, text, if At(text, q) == 43 || At(text, q) == MINUS then q + 1 else q, 0);
  }

  lemma ScanPairAgrees(line: seq<Byte>, text: seq<Byte>, p: nat)
    requires Ends(line, text) && p <= |text|
    ensures ScanPair(line, p) == ScanPair(text, p)
    ensures ScanPair(text, p).Some? ==> ToSeparator(text, p) < |text|
  {
    hide ScanInt, ToSeparator;
    ScanIntAgrees(line, text, p);
    if ScanInt(text, p).Some? {
      var q := ScanInt(text, p).value.1;
      AtAgrees(line, text, q);
      if At(text, q) == COMMA {
        ScanIntAgrees(line, text, q + 1);
        SeparatorStops(text, p, q);
      }
    }
  }

  lemma {:induction false} SeparatorStops(text: seq<Byte>, p: nat, q: nat)
    requires p <= q && At(text, q) == COMMA
    ensures ToSeparator(text, p) <= q
    decreases q - p
  {
    if p < q && At(text, p) != 0 && At(text, p) != COMMA && At(text, p) != CLOSE { SeparatorStops(text, p + 1, q); }
  }

  lemma {:induction false} ToSpaceAgrees(line: seq<Byte>, text: seq<Byte>, p: nat)
    requires Ends(line, text) && p <= |text|
    ensures ToSpace(line, p) == ToSpace(text, p) <= |text|
    decreases |text| - p
  {
    AtAgrees(line, text, p);
    if At(text, p) != 0 && At(text, p) != SPACE { ToSpaceAgrees(line, text, p + 1); }
  }

  lemma {:induction false} ToSeparatorAgrees(line: seq<Byte>, text: seq<Byte>, p: nat)
    requires Ends(line, text) && p <= |text|
    ensures ToSeparator(line, p) == ToSeparator(text, p) <= |text|
    decreases |text| - p
  {
    AtAgrees(line, text, p);
    if At(text, p) != 0 && At(text, p) != COMMA && At(text, p) != CLOSE { ToSeparatorAgrees(line, text, p + 1); }
  }

  /** The pair loop never steps past the zero. */
  lemma {:induction false} VectorAgrees(line: seq<Byte>, text: seq<Byte>, i: nat, v: seq<int>)
    requires Ends(line, text) && i <= |text|
    ensures Vector(line, i, v) == Vector(text, i, v)
    decreases |text| - i
  {
    hide ScanPair, ToSeparator;
    AtAgrees(line, text, i);
    ScanPairAgrees(line, text, i);
    if ScanPair(text, i).Some? {
      var (start, end) := ScanPair(text, i).value;
      ToSeparatorAgrees(line, text, i);
      ToSeparatorAgrees(line, text, ToSeparator(text, i) + 1);
      var j := ToSeparator(text, ToSeparator(text, i) + 1);
      AtAgrees(line, text, j);
      if At(text, j) == COMMA { VectorAgrees(line, text, j + 1, v + [start, end]); }
    }
  }

  lemma {:induction false} HexDigitsAgree(line: seq<Byte>, text: seq<Byte>, p: nat, width: nat, acc: nat)
    requires Ends(line, text) && p <= |text|
    ensures HexDigits(line, p, width, acc) == HexDigits(text, p, width, acc)
    decreases width
  {
    AtAgrees(line, text, p);
    if width > 0 && IsHex(At(text, p)) {
      HexDigitsAgree(line, text, p + 1, width - 1, 16 * acc + HexValue(At(text, p)));
    }
  }

  lemma ScanHexAgrees(line: seq<Byte>, text: seq<Byte>, p: nat)
    requires Ends(line, text) && p <= |text|
    ensures ScanHex(line, p) == ScanHex(text, p)
  {
    hide SkipSpaces, HexDigits;
    SkipSpacesAgrees(line, text, p);
    var q := SkipSpaces(text, p);
    AtAgrees(line, text, q);
    var signed := At(text, q) == 43 || At(text, q) == 45;
    var q1, w1 := if signed then q + 1 else q, if signed then 3 else 4;
    AtAgrees(line, text, q1);
    if q1 < |text| { AtAgrees(line, text, q1 + 1); }
    var prefixed := At(text, q1) == 48 && (At(text, q1 + 1) == 120 || At(text, q1 + 1) == 88);
    HexDigitsAgree(line, text, if prefixed then q1 + 2 else q1, if prefixed then w1 - 2 else w1, 0);
  }

  lemma {:induction false} ScanAgrees(
    line: seq<Byte>, text: seq<Byte>, start: nat, n: int, i: nat, escape: bool, sofar: seq<UChar>)
    requires Ends(line, text) && start + n <= |text|
    ensures Scan(line, start, n, QUOTE, i, escape, sofar) == Scan(text, start, n, QUOTE, i, escape, sofar)
    decreases n - i
  {
    hide ScanHex, Unescape;
    if i < n {
      var c := SignExtend(text[start + i]);
      assert line[start + i] == text[start + i];
      if escape {
        if c != LOWER_U {
          ScanAgrees(line, text, start, n, i + 1, false, sofar + [Unescape(c)]);
        } else if i + 4 < n {
          ScanHexAgrees(line, text, start + i + 1);
          if ScanHex(text, start + i + 1).Some? {
            ScanAgrees(line, text, start, n, i + 5, false, sofar + [ScanHex(text, start + i + 1).value % 0x1_0000]);
          }
        }
      } else if c == BACKSLASH {
        ScanAgrees(line, text, start, n, i + 1, true, sofar);
      } else if c != QUOTE {
        ScanAgrees(line, text, start, n, i + 1, false, sofar + [c]);
      }
    }
  }

  lemma HeaderAgrees(line: seq<Byte>, text: seq<Byte>)
    requires Ends(line, text)
    ensures Header(line, |text|) == Header(text, |text|)
    ensures Header(text, |text|).Some? ==> Header(text, |text|).value.1 <= |text|
  {
    hide Scan;
    AtAgrees(line, text, 0);
    if At(text, 0) == SPACE {
      AtAgrees(line, text, 1);
      ScanAgrees(line, text, 2, |text| - 2, 0, false, []);
      var i := Scan(text, 2, |text| - 2, QUOTE, 0, false, []).index + 2;
      if i < |text| - 2 {
        AtAgrees(line, text, i);
        AtAgrees(line, text, i + 1);
        AtAgrees(line, text, i + 2);
      }
    }
  }

  /** The offset or the result runs to the end of the text, and the step behind the next space goes past the zero. */
  ghost predicate StepsPastZero(text: seq<Byte>, p: nat) {
    var q := ToSpace(text, p);
    && ScanInt(text, p).Some?
    && (q == |text| || (ScanInt(text, q + 1).Some? && ToSpace(text, q + 1) == |text|))
  }

  lemma FieldsAgree(line: seq<Byte>, text: seq<Byte>, p: nat)
    requires Ends(line, text) && p <= |text| && !StepsPastZero(text, p)
    ensures Fields(line, p) == Fields(text, p)
  {
    hide ScanInt, ToSpace, Vector;
    ScanIntAgrees(line, text, p);
    if ScanInt(text, p).Some? {
      ToSpaceAgrees(line, text, p);
      var j := ToSpace(text, p) + 1;
      ScanIntAgrees(line, text, j);
      if ScanInt(text, j).Some? {
        ToSpaceAgrees(line, text, j);
        var k := ToSpace(text, j) + 1;
        AtAgrees(line, text, k);
        if At(text, k) == OPEN { VectorAgrees(line, text, k + 1, []); }
      }
    }
  }

  /** Nothing behind the zero: the fields cannot be read. */
  lemma NothingBehind(line: seq<Byte>, text: seq<Byte>, p: nat)
    requires Ends(line, text) && |line| == |text| + 1 && p <= |text| && StepsPastZero(text, p)
    ensures Fields(line, p) == None
  {
    hide ToSpace, Vector;
    ToSpaceAgrees(line, text, p);
    var j := ToSpace(text, p) + 1;
    if j > |text| {
      assert SkipSpaces(line, j) == j && Digits(line, j, 0) == (0, j);
    } else {
      ToSpaceAgrees(line, text, j);
    }
  }

  /** Where the offset runs to the end of the text, "0 (" behind the zero makes the fields readable. */
  lemma SomethingBehindOffset(line: seq<Byte>, text: seq<Byte>, p: nat)
    requires Ends(line, text) && p <= |text| && ScanInt(text, p).Some? && ToSpace(text, p) == |text|
    requires |line| == |text| + 4 && line[|text| + 1] == 48 && line[|text| + 2] == SPACE && line[|text| + 3] == OPEN
    ensures Fields(line, p).Some?
  {
    hide Vector, ScanInt, ToSpace;
    ScanIntAgrees(line, text, p);
    ToSpaceAgrees(line, text, p);
    ZeroField(line, |text| + 1);
    EndOfVector(line, |text| + 4);
  }

  /** Where the result does, "(" is enough. */
  lemma SomethingBehindResult(line: seq<Byte>, text: seq<Byte>, p: nat)
    requires Ends(line, text) && p <= |text| && ScanInt(text, p).Some? && ToSpace(text, p) < |text|
    requires ScanInt(text, ToSpace(text, p) + 1).Some? && ToSpace(text, ToSpace(text, p) + 1) == |text|
    requires |line| == |text| + 2 && line[|text| + 1] == OPEN
    ensures Fields(line, p).Some?
  {
    hide Vector, ScanInt, ToSpace;
    ScanIntAgrees(line, text, p);
    ToSpaceAgrees(line, text, p);
    ScanIntAgrees(line, text, ToSpace(text, p) + 1);
    ToSpaceAgrees(line, text, ToSpace(text, p) + 1);
    EndOfVector(line, |text| + 2);
  }

  lemma SomethingBehind(text: seq<Byte>, p: nat) returns (stale: seq<Byte>)
    requires 0 !in text && p <= |text| && StepsPastZero(text, p)
    ensures Fields(text + [0] + stale, p).Some?
  {
    hide ScanInt, ToSpace, Fields;
    stale := if ToSpace(text, p) == |text| then [48, SPACE, OPEN] else [OPEN];
    EndsWith(text, stale);
    EndsWith(text, []);
    ToSpaceAgrees(text + [0] + [], text, p);
    if ToSpace(text, p) == |text| {
      SomethingBehindOffset(text + [0] + stale, text, p);
    } else {
      SomethingBehindResult(text + [0] + stale, text, p);
    }
  }

  lemma ZeroField(line: seq<Byte>, j: nat)
    requires j + 1 < |line| && line[j] == 48 && line[j + 1] == SPACE
    ensures ScanInt(line, j).Some? && ToSpace(line, j) == j + 1
  {
    assert SkipSpaces(line, j) == j;
    assert Digits(line, j, 0) == Digits(line, j + 1, 0) == (0, j + 1);
    assert ToSpace(line, j) == ToSpace(line, j + 1);
  }

  lemma EndOfVector(line: seq<Byte>, k: nat)
    requires At(line, k) == 0
    ensures Vector(line, k, []) == Some([])
  {
  }

  /** The header is accepted and the fields behind it step past the zero. */
  ghost predicate Overruns(text: seq<Byte>) {
    match Header(text, |text|)
    case None => false
    case Some((_, p)) => StepsPastZero(text, p)
  }

  /**
   Exactly when the bytes behind a line's terminating zero cannot change its record:
   unless offset or result runs to the end of the line.
   */
  lemma StaleBytesAreIgnoredIff(text: seq<Byte>)
    requires 0 !in text
    ensures (forall stale :: Parse(text + [0] + stale, |text|) == Parse(text + [0] + [], |text|)) <==> !Overruns(text)
  {
    hide Header, Fields, StepsPastZero;
    if Overruns(text) {
      var p := Header(text, |text|).value.1;
      EndsWith(text, []);
      HeaderAgrees(text + [0] + [], text);
      NothingBehind(text + [0] + [], text, p);
      var stale := SomethingBehind(text, p);
      EndsWith(text, stale);
      HeaderAgrees(text + [0] + stale, text);
      assert Parse(text + [0] + stale, |text|) != Parse(text + [0] + [], |text|);
    } else {
      forall stale ensures Parse(text + [0] + stale, |text|) == Parse(text + [0] + [], |text|) {
        IgnoresStale(text, stale);
        IgnoresStale(text, []);
      }
    }
  }

  lemma EndsWith(text: seq<Byte>, stale: seq<Byte>)
    requires 0 !in text
    ensures Ends(text + [0] + stale, text)
  {
    assert forall k :: 0 <= k < |text| ==> text[k] in text;
  }

  lemma IgnoresStale(text: seq<Byte>, stale: seq<Byte>)
    requires 0 !in text && !Overruns(text)
    ensures Parse(text + [0] + stale, |text|) == Parse(text, |text|)
  {
    hide Header, Fields, StepsPastZero;
    EndsWith(text, stale);
    HeaderAgrees(text + [0] + stale, text);
    if Header(text, |text|).Some? { FieldsAgree(text + [0] + stale, text, Header(text, |text|).value.1); }
  }

  /** A line whose record depends on what is behind it: an empty subject and the offset 5, and nothing else. */
  lemma StaleBytesCanMatter()
    ensures var text := [SPACE, QUOTE, QUOTE, COMMA, SPACE, 53]; 0 !in text && Overruns(text)
  {
    var text := [SPACE, QUOTE, QUOTE, COMMA, SPACE, 53];
    assert Scan(text, 2, 4, QUOTE, 0, false, []) == Scanned(0, []);
    assert Header(text, 6) == Some(([], 5));
    assert SkipSpaces(text, 5) == 5 && Digits(text, 5, 0) == Digits(text, 6, 5) == (5, 6);
    assert ToSpace(text, 5) == ToSpace(text, 6) == 6;
  }
}
