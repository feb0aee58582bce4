/**
 The input lines of DumpRenderTree (DumpRenderTreeCommon.cpp): a tokenizer that
 walks over apostrophes with a cursor, and the parser of test commands, with and
 without debug assertions.
 */
module CommandLine {
  import opened Options
  import opened Bits
  import ScanString
  import TestLine

  type Text = seq<Byte>

  const SEPARATOR := 39

  const TIMEOUT: Text := [45, 45, 116, 105, 109, 101, 111, 117, 116]                   // --timeout
  const PIXEL: Text := [45, 112]                                                       // -p
  const PIXEL_TEST: Text := [45, 45, 112, 105, 120, 101, 108, 45, 116, 101, 115, 116]  // --pixel-test

  // ---- splitting at apostrophes ------------------------------------------------------

  predicate Plain(s: Text) { SEPARATOR !in s }

  /** The first separator at or after start. */
  function Find(s: Text, start: nat): (r: Option<nat>)
    requires start <= |s|
    ensures r.Some? ==> start <= r.value < |s| && s[r.value] == SEPARATOR
    ensures forall k :: start <= k < (if r.Some? then r.value else |s|) ==> s[k] != SEPARATOR
    decreases |s| - start
  {
    if start == |s| then None else if s[start] == SEPARATOR then Some(start) else Find(s, start + 1)
  }

  function Split(s: Text, start: nat): (r: seq<Text>)
    requires start <= |s|
    ensures |r| > 0
    decreases |s| - start
  {
    match Find(s, start)
    case None => [s[start..]]
    case Some(p) => [s[start..p]] + Split(s, p + 1)
  }

  function Join(pieces: seq<Text>): Text
    requires |pieces| > 0
  {
    if |pieces| == 1 then pieces[0] else pieces[0] + ([SEPARATOR] + Join(pieces[1..]))
  }

  predicate AllPlain(pieces: seq<Text>) {
    forall k :: 0 <= k < |pieces| ==> Plain(pieces[k])
  }

  lemma RejoinsAt(s: Text, start: nat, p: nat)
    requires start <= p < |s| && s[p] == SEPARATOR
    ensures s[start..p] + ([SEPARATOR] + s[p + 1..]) == s[start..]
  {
  }

  lemma PlainSlice(s: Text, start: nat, end: nat)
    requires start <= end <= |s| && forall k :: start <= k < end ==> s[k] != SEPARATOR
    ensures Plain(s[start..end])
  {
  }

  lemma SplitStep(s: Text, start: nat)
    requires start <= |s|
    ensures match Find(s, start)
      case None => Split(s, start) == [s[start..]] && Plain(s[start..])
      case Some(p) => Split(s, start) == [s[start..p]] + Split(s, p + 1) && Plain(s[start..p]) && s[p] == SEPARATOR
  {
    match Find(s, start)
    case None => PlainSlice(s, start, |s|); assert s[start..] == s[start..|s|];
    case Some(p) => PlainSlice(s, start, p);
  }

  lemma {:induction false} JoinInvertsSplit(s: Text, start: nat)
    requires start <= |s|
    ensures Join(Split(s, start)) == s[start..] && AllPlain(Split(s, start))
    decreases |s| - start
  {
    hide Split, Find, Plain;
    SplitStep(s, start);
    match Find(s, start)
    case None =>
    case Some(p) =>
      JoinInvertsSplit(s, p + 1);
      assert Split(s, start)[1..] == Split(s, p + 1);
      RejoinsAt(s, start, p);
  }

  lemma PlainRange(s: Text, start: nat, piece: Text)
    requires start + |piece| <= |s| && s[start..start + |piece|] == piece && Plain(piece)
    ensures forall k :: start <= k < start + |piece| ==> s[k] != SEPARATOR
  {
    forall k | start <= k < start + |piece| ensures s[k] != SEPARATOR {
      assert s[start..start + |piece|][k - start] == s[k];
    }
  }

  /** A text that goes on from start with a separator behind piece. */
  lemma FirstPiece(s: Text, start: nat, piece: Text, rest: Text)
    requires start <= |s| && s[start..] == piece + ([SEPARATOR] + rest) && Plain(piece)
    ensures start + |piece| < |s| && s[start..start + |piece|] == piece && s[start + |piece| + 1..] == rest
    ensures Find(s, start) == Some(start + |piece|)
  {
    var tail, p := s[start..], start + |piece|;
    assert tail[|piece|] == SEPARATOR == s[p];
    assert tail[..|piece|] == piece && s[start..p] == tail[..|piece|];
    assert s[p + 1..] == tail[|piece| + 1..] == rest;
    PlainRange(s, start, piece);
  }

  lemma LastPiece(s: Text, start: nat, piece: Text)
    requires start <= |s| && s[start..] == piece && Plain(piece)
    ensures Find(s, start) == None
  {
    PlainRange(s, start, piece);
  }

  lemma {:induction false} SplitInvertsJoin(s: Text, start: nat, pieces: seq<Text>)
    requires start <= |s| && |pieces| > 0 && AllPlain(pieces) && s[start..] == Join(pieces)
    ensures Split(s, start) == pieces
    decreases |pieces|
  {
    hide Split, Find, Plain;
    SplitStep(s, start);
    if |pieces| == 1 {
      LastPiece(s, start, pieces[0]);
    } else {
      FirstPiece(s, start, pieces[0], Join(pieces[1..]));
      SplitInvertsJoin(s, start + |pieces[0]| + 1, pieces[1..]);
      assert pieces == [pieces[0]] + pieces[1..];
    }
  }

  // ---- the parser as a function --------------------------------------------------------

  datatype TestCommand = TestCommand(pathOrURL: Text, shouldDumpPixels: bool, expectedPixelHash: Text, timeout: int)

  const DEFAULT_COMMAND := TestCommand([], false, [], 30000)

  /** Past its last piece the tokenizer yields empty ones. */
  function PieceAt(pieces: seq<Text>, i: nat): Text { if i < |pieces| then pieces[i] else [] }

  function Atoi(s: Text): int {
    match TestLine.ScanInt(s, 0)
    case None => 0
    case Some((value, _)) => value
  }

  /** With Debug, next() asserts that there is a next piece. */
  datatype Build = Debug | Release

  datatype Outcome = Parsed(command: TestCommand) | Died | AssertionFailed

  predicate IsOption(arg: Text) { arg == TIMEOUT || arg == PIXEL || arg == PIXEL_TEST }

  /** The options from piece i on. */
  function ParseOptions(build: Build, pieces: seq<Text>, i: nat, command: TestCommand): Outcome
    decreases |pieces| - i
  {
    var arg, value := PieceAt(pieces, i), PieceAt(pieces, i + 1);
    if arg == [] then Parsed(command)
    else if arg == TIMEOUT then
      if build.Debug? && value == [] then AssertionFailed
      else ParseOptions(build, pieces, i + 2, command.(timeout := Atoi(value)))
    else if arg == PIXEL || arg == PIXEL_TEST then
      if value == [] then Parsed(command.(shouldDumpPixels := true))
      else ParseOptions(build, pieces, i + 2, command.(shouldDumpPixels := true, expectedPixelHash := value))
    else Died
  }

  function Parse(build: Build, pieces: seq<Text>): Outcome {
    if PieceAt(pieces, 0) == [] then Died
    else ParseOptions(build, pieces, 1, DEFAULT_COMMAND.(pathOrURL := PieceAt(pieces, 0)))
  }

  /** A path alone is tested as it is, with a timeout of thirty seconds; a line without a path is fatal. */
  lemma Defaults(build: Build, path: Text)
    requires Plain(path)
    ensures Parse(build, Split(path, 0)) ==
      if path == [] then Died else Parsed(TestCommand(path, false, [], 30000))
    ensures Parse(build, Split([39] + path, 0)) == Died
  {
    assert path[0..] == path;
    assert Split(path, 0) == [path];
    assert ([39] + path)[0..0] == [];
  }

  function Codes(s: string): seq<int> { seq(|s|, i requires 0 <= i < |s| => s[i] as int) }

  /** The options and the separator, character by character. */
  lemma OptionsAsWritten(arg: Text)
    ensures IsOption(arg) <==> arg == Codes("--timeout") || arg == Codes("-p") || arg == Codes("--pixel-test")
    ensures TIMEOUT == Codes("--timeout") && [SEPARATOR] == Codes("'")
  {
  }

  // ---- the code ------------------------------------------------------------------------

  class CommandTokenizer {
    const build: Build
    const input: Text
    var nextToken: Text
    var posNextSeparator: Option<nat>    // None is npos
    ghost var cursor: nat                // how many pieces were passed

    ghost function Pieces(): seq<Text> { Split(input, 0) }

    /** An apostrophe at the very start is found again and again: the tokenizer stays at the empty first piece. */
    ghost predicate Stuck() { input != [] && input[0] == SEPARATOR }

    /** What the tokenizer has not read yet are the pieces from k on. */
    ghost predicate Unread(k: nat)
      reads this
    {
      if Stuck() then posNextSeparator == Some(0) && k == 0
      else
        match posNextSeparator
        case None => k >= |Pieces()|
        case Some(p) =>
          if p == 0 then input == [] || k == 0
          else p < |input| && k < |Pieces()| && Pieces()[k..] == Split(input, p + 1)
    }

    ghost predicate Valid()
      reads this
    {
      && nextToken == PieceAt(Pieces(), cursor) && (Stuck() ==> cursor == 0)
      && Unread(if Stuck() then 0 else cursor + 1)
    }

    constructor (build: Build, input: Text)
      ensures Valid() && this.build == build && this.input == input && cursor == 0
    {
      this.build, this.input := build, input;
      nextToken, posNextSeparator, cursor := [], Some(0), 0;
      new;
      Pump(0);
    }

    method Pump(ghost k: nat)
      requires Unread(k)
      modifies this`nextToken, this`posNextSeparator
      ensures nextToken == PieceAt(Pieces(), k) && Unread(if Stuck() then 0 else k + 1)
    {
      hide Find;
      if posNextSeparator == None || posNextSeparator == Some(|input|) {
        nextToken := [];
        return;
      }
      var start := if posNextSeparator != Some(0) then posNextSeparator.value + 1 else 0;
      assert Pieces()[k..] == Split(input, start);
      assert PieceAt(Pieces(), k) == Pieces()[k..][0];
      posNextSeparator := Find(input, start);
      nextToken := if posNextSeparator == None then input[start..] else input[start..posNextSeparator.value];
      if posNextSeparator != None && !Stuck() {
        assert Pieces()[k + 1..] == Pieces()[k..][1..] == Split(input, posNextSeparator.value + 1);
      }
    }

    /** None when the assertion fails. */
    method Next() returns (token: Option<Text>)
      requires Valid()
      modifies this
      ensures Valid()
      ensures token ==
        if build.Debug? && old(nextToken) == [] then None else Some(PieceAt(Pieces(), old(cursor)))
      ensures cursor == if Stuck() then 0 else if token == None then old(cursor) else old(cursor) + 1
    {
      if build.Debug? && !HasNext() { return None; }
      token := Some(nextToken);
      cursor := if Stuck() then 0 else cursor + 1;
      Pump(cursor);
    }

    predicate HasNext()
      reads this
    {
      nextToken != []
    }
  }

  method ParseInputLine(build: Build, inputLine: Text) returns (result: Outcome)
    ensures result == Parse(build, Split(inputLine, 0))
  {
    var tokenizer := new CommandTokenizer(build, inputLine);
    if !tokenizer.HasNext() { return Died; }
    var arg := tokenizer.Next();
    result := Parsed(DEFAULT_COMMAND.(pathOrURL := arg.value));
    while result.Parsed? && tokenizer.HasNext()
      invariant tokenizer.Valid() && tokenizer.build == build && tokenizer.input == inputLine && !tokenizer.Stuck()
      invariant Continues(tokenizer, result, Parse(build, Split(inputLine, 0)))
      decreases |Split(inputLine, 0)| - tokenizer.cursor, result.Parsed?
    {
      result := ReadOption(tokenizer, result.command, Parse(build, Split(inputLine, 0)));
    }
  }

  /** What is read so far leads to end. */
  ghost predicate Continues(tokenizer: CommandTokenizer, sofar: Outcome, end: Outcome)
    reads tokenizer
  {
    end ==
      if sofar.Parsed? then ParseOptions(tokenizer.build, tokenizer.Pieces(), tokenizer.cursor, sofar.command)
      else sofar
  }

  lemma EmptyPieceEnds(build: Build, pieces: seq<Text>, i: nat, c: TestCommand)
    requires PieceAt(pieces, i) == []
    ensures ParseOptions(build, pieces, i, c) == Parsed(c)
  {
  }

  lemma OptionIsRead(build: Build, pieces: seq<Text>, i: nat, c: TestCommand)
    requires PieceAt(pieces, i) != []
    ensures !IsOption(PieceAt(pieces, i)) ==> ParseOptions(build, pieces, i, c) == Died
    ensures PieceAt(pieces, i) == TIMEOUT ==>
      var value := PieceAt(pieces, i + 1);
      ParseOptions(build, pieces, i, c) ==
        if build.Debug? && value == [] then AssertionFailed
        else ParseOptions(build, pieces, i + 2, c.(timeout := Atoi(value)))
    ensures PieceAt(pieces, i) == PIXEL || PieceAt(pieces, i) == PIXEL_TEST ==>
      var value := PieceAt(pieces, i + 1);
      ParseOptions(build, pieces, i, c) ==
        if value == [] then Parsed(c.(shouldDumpPixels := true))
        else ParseOptions(build, pieces, i + 2, c.(shouldDumpPixels := true, expectedPixelHash := value))
  {
  }

  /** One turn of the option loop: the option, with the piece behind it when it takes one. */
  method ReadOption(tokenizer: CommandTokenizer, before: TestCommand, ghost end: Outcome) returns (result: Outcome)
    requires tokenizer.Valid() && !tokenizer.Stuck() && tokenizer.HasNext() && Continues(tokenizer, Parsed(before), end)
    modifies tokenizer
    ensures tokenizer.Valid() && Continues(tokenizer, result, end)
    ensures old(tokenizer.cursor) < tokenizer.cursor && old(tokenizer.cursor) < |tokenizer.Pieces()|
  {
    hide ParseOptions, Atoi, Split;
    ghost var build, pieces, i := tokenizer.build, tokenizer.Pieces(), tokenizer.cursor;
    var command := before;
    var arg := tokenizer.Next();
    OptionIsRead(build, pieces, i, before);
    if arg.value == TIMEOUT {
      var timeoutToken := tokenizer.Next();
      if timeoutToken == None { return AssertionFailed; }
      command := command.(timeout := Atoi(timeoutToken.value));
    } else if arg.value == PIXEL || arg.value == PIXEL_TEST {
      command := command.(shouldDumpPixels := true);
      if tokenizer.HasNext() {
        var hash := tokenizer.Next();
        command := command.(expectedPixelHash := hash.value);
      } else {
        EmptyPieceEnds(build, pieces, i + 1, command);
      }
    } else {
      return Died;
    }
    return Parsed(command);
  }

  // ---- where a line ends ---------------------------------------------------------------

  /** What an option does with the piece behind it. */
  function Take(c: TestCommand, option: Text, value: Text): TestCommand {
    if option == TIMEOUT then c.(timeout := Atoi(value))
    else if value == [] then c.(shouldDumpPixels := true)
    else c.(shouldDumpPixels := true, expectedPixelHash := value)
  }

  function TakeAll(c: TestCommand, pieces: seq<Text>, i: nat): TestCommand
    decreases |pieces| - i
  {
    if i >= |pieces| then c else TakeAll(Take(c, pieces[i], PieceAt(pieces, i + 1)), pieces, i + 2)
  }

  /** The first pieces are front, and front holds no empty one. */
  ghost predicate StartsFilled(pieces: seq<Text>, front: seq<Text>) {
    |front| <= |pieces| && forall j :: 0 <= j < |front| ==> front[j] != [] && pieces[j] == front[j]
  }

  /** Every other piece of front, from i on, is an option. */
  ghost predicate OptionsFrom(front: seq<Text>, i: nat)
    decreases |front| - i
  {
    i < |front| ==> IsOption(front[i]) && OptionsFrom(front, i + 2)
  }

  /** The last piece of front is --timeout, where an option is expected. */
  ghost predicate Dangling(front: seq<Text>, i: nat)
    decreases |front| - i
  {
    i < |front| && (if i + 1 == |front| then front[i] == TIMEOUT else Dangling(front, i + 2))
  }

  lemma TakesOption(build: Build, pieces: seq<Text>, i: nat, c: TestCommand)
    requires IsOption(PieceAt(pieces, i)) && PieceAt(pieces, i + 1) != []
    ensures ParseOptions(build, pieces, i, c) ==
      ParseOptions(build, pieces, i + 2, Take(c, PieceAt(pieces, i), PieceAt(pieces, i + 1)))
  {
  }

  lemma TakesLastOption(build: Build, pieces: seq<Text>, i: nat, c: TestCommand)
    requires IsOption(PieceAt(pieces, i)) && PieceAt(pieces, i + 1) == []
    ensures var d := Take(c, PieceAt(pieces, i), []);
      ParseOptions(build, pieces, i, c) ==
        if PieceAt(pieces, i) != TIMEOUT then Parsed(d)
        else if build.Debug? then AssertionFailed
        else ParseOptions(build, pieces, i + 2, d)
  {
  }

  lemma UnknownDies(build: Build, pieces: seq<Text>, i: nat, c: TestCommand)
    requires PieceAt(pieces, i) != [] && !IsOption(PieceAt(pieces, i))
    ensures ParseOptions(build, pieces, i, c) == Died
  {
  }

  /**
   Reading front, which ends at an empty piece or at the end of the line: an
   argument that is no option is fatal, and all options take effect; a --timeout
   at the end of front fails the assertion or reads on behind the empty piece.
   */
  lemma {:induction false} ReadFront(build: Build, pieces: seq<Text>, front: seq<Text>, i: nat, c: TestCommand)
    requires StartsFilled(pieces, front) && PieceAt(pieces, |front|) == [] && i <= |front|
    ensures ParseOptions(build, pieces, i, c) ==
      if !OptionsFrom(front, i) then Died
      else if !Dangling(front, i) then Parsed(TakeAll(c, front, i))
      else if build.Debug? then AssertionFailed
      else ParseOptions(build, pieces, |front| + 1, TakeAll(c, front, i))
    decreases |front| - i
  {
    if i < |front| {
      assert PieceAt(pieces, i) == front[i];
      if !IsOption(front[i]) {
        UnknownDies(build, pieces, i, c);
      } else if i + 1 == |front| {
        TakesLastOption(build, pieces, i, c);
      } else {
        assert PieceAt(pieces, i + 1) == front[i + 1];
        TakesOption(build, pieces, i, c);
        ReadFront(build, pieces, front, i + 2, Take(c, front[i], front[i + 1]));
      }
    }
  }

  /** A line whose pieces up to the first empty one are front, the path included. */
  lemma ParseFront(build: Build, pieces: seq<Text>, front: seq<Text>)
    requires StartsFilled(pieces, front) && PieceAt(pieces, |front|) == [] && front != []
    ensures var c := TakeAll(DEFAULT_COMMAND.(pathOrURL := front[0]), front, 1);
      Parse(build, pieces) ==
        if !OptionsFrom(front, 1) then Died
        else if !Dangling(front, 1) then Parsed(c)
        else if build.Debug? then AssertionFailed
        else ParseOptions(build, pieces, |front| + 1, c)
  {
    assert PieceAt(pieces, 0) == front[0];
    ReadFront(build, pieces, front, 1, DEFAULT_COMMAND.(pathOrURL := front[0]));
  }

  lemma {:induction false} DanglingIff(front: seq<Text>, i: nat)
    requires i <= |front|
    ensures Dangling(front, i) <==> (|front| - i) % 2 == 1 && front[|front| - 1] == TIMEOUT
    decreases |front| - i
  {
    if i + 1 < |front| { DanglingIff(front, i + 2); }
  }

  lemma FilledLine(front: seq<Text>, tail: seq<Text>)
    requires [] !in front
    ensures StartsFilled(front, front) && StartsFilled(front + [[]] + tail, front)
    ensures PieceAt(front, |front|) == [] == PieceAt(front + [[]] + tail, |front|)
  {
    assert forall j :: 0 <= j < |front| ==> front[j] in front;
  }

  /**
   Exactly when an empty piece ends the line: unless the pieces before it end in a
   --timeout where an option is expected.
   */
  lemma EmptyPieceEndsTheLineIff(front: seq<Text>)
    requires [] !in front && Parse(Release, front).Parsed?
    ensures (forall tail :: Parse(Release, front + [[]] + tail) == Parse(Release, front))
      <==> !(front != [] && |front| % 2 == 0 && front[|front| - 1] == TIMEOUT)
  {
    hide ParseOptions, TakeAll, OptionsFrom, Dangling;
    FilledLine(front, []);
    ParseFront(Release, front, front);
    DanglingIff(front, 1);
    forall tail | !Dangling(front, 1) ensures Parse(Release, front + [[]] + tail) == Parse(Release, front) {
      FilledLine(front, tail);
      ParseFront(Release, front + [[]] + tail, front);
    }
    if Dangling(front, 1) { ReadsBehindDangling(front); }
  }

  /** Behind a dangling --timeout and an empty piece, the argument x is still seen, and is fatal. */
  lemma ReadsBehindDangling(front: seq<Text>)
    requires [] !in front && Dangling(front, 1) && OptionsFrom(front, 1)
    ensures Parse(Release, front + [[]] + [[120]]) == Died
  {
    var pieces := front + [[]] + [[120]];
    FilledLine(front, [[120]]);
    ParseFront(Release, pieces, front);
    UnknownDies(Release, pieces, |front| + 1, TakeAll(DEFAULT_COMMAND.(pathOrURL := front[0]), front, 1));
  }

  /**
   With assertions an empty piece always ends the line, and the assertion fails
   exactly on the lines on which it does not end without them; otherwise the two
   builds agree.
   */
  lemma AssertionFailsIff(front: seq<Text>, tail: seq<Text>)
    requires [] !in front
    ensures Parse(Debug, front + [[]] + tail) == Parse(Debug, front)
    ensures Parse(Debug, front) == AssertionFailed
      <==> Parse(Release, front).Parsed? && front != [] && |front| % 2 == 0 && front[|front| - 1] == TIMEOUT
    ensures Parse(Debug, front) == AssertionFailed || Parse(Debug, front) == Parse(Release, front)
  {
    hide ParseOptions, TakeAll, OptionsFrom, Dangling;
    if front != [] {
      FilledLine(front, tail);
      DanglingIff(front, 1);
      ParseFront(Debug, front, front);
      ParseFront(Debug, front + [[]] + tail, front);
      ParseFront(Release, front, front);
      EmptyPieceEnds(Release, front, |front| + 1, TakeAll(DEFAULT_COMMAND.(pathOrURL := front[0]), front, 1));
    }
  }

  /** A line on which the two differ: the path, --timeout, nothing, and x. */
  lemma TimeoutSkipsAnEmptyPiece(path: Text)
    requires path != []
    ensures Parse(Release, [path, TIMEOUT]) == Parsed(DEFAULT_COMMAND.(pathOrURL := path, timeout := 0))
    ensures Parse(Release, [path, TIMEOUT, [], [120]]) == Died
    ensures Parse(Debug, [path, TIMEOUT, [], [120]]) == AssertionFailed
  {
    var front := [path, TIMEOUT];
    FilledLine(front, [[120]]);
    ParseFront(Release, front, front);
    ReadsBehindDangling(front);
    AssertionFailsIff(front, [[120]]);
    assert front + [[]] + [[120]] == [path, TIMEOUT, [], [120]];
  }

  /** Without an empty piece, a line is fatal exactly when it has no path or an argument that is no option. */
  lemma DiesIff(build: Build, front: seq<Text>)
    requires [] !in front
    ensures Parse(build, front) == Died <==>
      front == [] || exists j :: 1 <= j < |front| && j % 2 == 1 && !IsOption(front[j])
  {
    if front != [] {
      FilledLine(front, []);
      ParseFront(build, front, front);
      OptionsFromIff(front, 1);
    }
  }

  lemma {:induction false} DiesBehind(build: Build, pieces: seq<Text>, front: seq<Text>, i: nat, c: TestCommand)
    requires StartsFilled(pieces, front) && OptionsFrom(front, i) && i <= |front| && (|front| - i) % 2 == 0
    requires PieceAt(pieces, |front|) != [] && !IsOption(PieceAt(pieces, |front|))
    ensures ParseOptions(build, pieces, i, c) == Died
    decreases |front| - i
  {
    hide ParseOptions, Take, IsOption;
    if i == |front| {
      UnknownDies(build, pieces, i, c);
    } else {
      assert PieceAt(pieces, i) == front[i] && PieceAt(pieces, i + 1) == front[i + 1];
      TakesOption(build, pieces, i, c);
      DiesBehind(build, pieces, front, i + 2, Take(c, front[i], front[i + 1]));
    }
  }

  /**
   Behind a path and any complete options: an argument that is no option is fatal, and
   an empty piece ends the line, whatever follows.
   */
  lemma UnknownArgumentDies(build: Build, front: seq<Text>, arg: Text, rest: seq<Text>)
    requires [] !in front && |front| % 2 == 1 && OptionsFrom(front, 1) && !IsOption(arg)
    ensures Parse(build, front + [arg] + rest) ==
      if arg == [] then Parsed(TakeAll(DEFAULT_COMMAND.(pathOrURL := front[0]), front, 1)) else Died
  {
    hide Parse, ParseOptions, TakeAll, IsOption, OptionsFrom;
    FilledBefore(front, arg, rest);
    DanglingIff(front, 1);
    EndsBehind(build, front + [arg] + rest, front, arg);
  }

  lemma FilledBefore(front: seq<Text>, arg: Text, rest: seq<Text>)
    requires [] !in front
    ensures StartsFilled(front + [arg] + rest, front) && PieceAt(front + [arg] + rest, |front|) == arg
  {
    assert forall j :: 0 <= j < |front| ==> front[j] in front;
  }

  lemma EndsBehind(build: Build, pieces: seq<Text>, front: seq<Text>, arg: Text)
    requires StartsFilled(pieces, front) && PieceAt(pieces, |front|) == arg && !IsOption(arg)
    requires |front| % 2 == 1 && OptionsFrom(front, 1) && !Dangling(front, 1)
    ensures Parse(build, pieces) ==
      if arg == [] then Parsed(TakeAll(DEFAULT_COMMAND.(pathOrURL := front[0]), front, 1)) else Died
  {
    hide ParseOptions, TakeAll, Dangling, OptionsFrom, IsOption;
    assert PieceAt(pieces, 0) == front[0];
    if arg == [] {
      ParseFront(build, pieces, front);
    } else {
      DiesBehind(build, pieces, front, 1, DEFAULT_COMMAND.(pathOrURL := front[0]));
    }
  }

  lemma {:induction false} OptionsFromIff(front: seq<Text>, i: nat)
    requires i <= |front| && i % 2 == 1
    ensures OptionsFrom(front, i) <==> forall j :: i <= j < |front| && j % 2 == 1 ==> IsOption(front[j])
    decreases |front| - i
  {
    if i + 1 < |front| { OptionsFromIff(front, i + 2); }
  }

  // ---- the printer ---------------------------------------------------------------------

  datatype Argument = Timeout(millis: int) | Pixels(long: bool, hash: Text)

  function Printed(a: Argument): seq<Text> {
    match a
    case Timeout(millis) => [TIMEOUT, TestLine.PrintInt(millis)]
    case Pixels(long, hash) => [if long then PIXEL_TEST else PIXEL] + if hash == [] then [] else [hash]
  }

  function PrintedAll(arguments: seq<Argument>): seq<Text> {
    if arguments == [] then [] else Printed(arguments[0]) + PrintedAll(arguments[1..])
  }

  /** Hashes hold no apostrophe, and only the last option may go without one. */
  predicate Printable(arguments: seq<Argument>) {
    forall k :: 0 <= k < |arguments| && arguments[k].Pixels? ==>
      Plain(arguments[k].hash) && (arguments[k].hash == [] ==> k == |arguments| - 1)
  }

  function Effect(c: TestCommand, a: Argument): TestCommand {
    match a
    case Timeout(millis) => c.(timeout := millis)
    case Pixels(_, hash) => if hash == [] then c.(shouldDumpPixels := true)
                            else c.(shouldDumpPixels := true, expectedPixelHash := hash)
  }

  function Effects(c: TestCommand, arguments: seq<Argument>): TestCommand
    decreases arguments
  {
    if arguments == [] then c else Effects(Effect(c, arguments[0]), arguments[1..])
  }

  lemma AtoiInvertsPrint(n: int)
    ensures Atoi(TestLine.PrintInt(n)) == n
  {
    var text := TestLine.PrintInt(n);
    assert [] + text == text;
    TestLine.ScanIntOfPrint(text, 0, [], n);
  }

  /** A timeout is read as far as it is a number: spaces, a sign, digits, then anything; without a digit it is 0. */
  lemma AtoiReads(s: Text, q: nat, d: seq<nat>)
    requires q <= |s| && (forall k :: 0 <= k < q ==> s[k] in {9, 10, 11, 12, 13, 32})
    requires ScanString.At(s, q) !in {9, 10, 11, 12, 13, 32}
    requires var r := q + if ScanString.At(s, q) in {43, 45} then 1 else 0;
      TestLine.HoldsDecimal(s, r, d) && !(48 <= ScanString.At(s, r + |d|) <= 57)
    ensures Atoi(s) == if ScanString.At(s, q) == 45 then 0 - TestLine.Decimal(d, 0) else TestLine.Decimal(d, 0)
  {
    TestLine.ScanIntReads(s, 0, q, d);
  }

  lemma PiecesBehind(pieces: seq<Text>, i: nat, first: seq<Text>, rest: seq<Text>)
    requires i <= |pieces| && pieces[i..] == first + rest
    ensures i + |first| <= |pieces| && pieces[i + |first|..] == rest
    ensures forall k :: 0 <= k < |first| ==> PieceAt(pieces, i + k) == first[k]
    ensures PieceAt(pieces, i + |first|) == if rest == [] then [] else rest[0]
  {
    assert |pieces[i..]| == |first| + |rest|;
    forall k | 0 <= k < |first| ensures PieceAt(pieces, i + k) == first[k] { assert pieces[i..][k] == first[k]; }
    forall k | 0 <= k < |rest| ensures pieces[i + |first| + k] == rest[k] {
      assert pieces[i..][|first| + k] == rest[k];
    }
  }

  lemma OneOption(build: Build, pieces: seq<Text>, i: nat, a: Argument, c: TestCommand)
    requires PieceAt(pieces, i) == Printed(a)[0]
    requires PieceAt(pieces, i + 1) == if |Printed(a)| == 2 then Printed(a)[1] else []
    ensures ParseOptions(build, pieces, i, c) ==
      if |Printed(a)| == 2 then ParseOptions(build, pieces, i + 2, Effect(c, a)) else Parsed(Effect(c, a))
  {
    if a.Timeout? { AtoiInvertsPrint(a.millis); }
  }

  lemma FirstOption(build: Build, pieces: seq<Text>, i: nat, a: Argument, rest: seq<Text>, c: TestCommand)
    requires i <= |pieces| && pieces[i..] == Printed(a) + rest && (|Printed(a)| == 1 ==> rest == [])
    ensures i + |Printed(a)| <= |pieces| && pieces[i + |Printed(a)|..] == rest
    ensures ParseOptions(build, pieces, i, c) ==
      if |Printed(a)| == 2 then ParseOptions(build, pieces, i + 2, Effect(c, a)) else Parsed(Effect(c, a))
  {
    PiecesBehind(pieces, i, Printed(a), rest);
    assert PieceAt(pieces, i + 0) == Printed(a)[0];
    assert |Printed(a)| == 2 ==> PieceAt(pieces, i + 1) == Printed(a)[1];
    OneOption(build, pieces, i, a, c);
  }

  lemma {:induction false} ParseOptionsOfPrint(
    build: Build, pieces: seq<Text>, i: nat, arguments: seq<Argument>, c: TestCommand)
    requires i <= |pieces| && Printable(arguments) && pieces[i..] == PrintedAll(arguments)
    ensures ParseOptions(build, pieces, i, c) == Parsed(Effects(c, arguments))
    decreases arguments
  {
    if arguments == [] {
      assert i == |pieces|;
    } else {
      var a, rest := arguments[0], arguments[1..];
      RestIsPrintable(arguments);
      FirstOption(build, pieces, i, a, PrintedAll(rest), c);
      ParseOptionsOfPrint(build, pieces, i + |Printed(a)|, rest, Effect(c, a));
    }
  }

  lemma RestIsPrintable(arguments: seq<Argument>)
    requires arguments != [] && Printable(arguments)
    ensures Printable(arguments[1..]) && (|Printed(arguments[0])| == 1 ==> arguments[1..] == [])
  {
    var rest := arguments[1..];
    forall k | 0 <= k < |rest| && rest[k].Pixels?
      ensures Plain(rest[k].hash) && (rest[k].hash == [] ==> k == |rest| - 1)
    {
      assert arguments[k + 1] == rest[k];
    }
  }

  lemma {:induction false} PrintedIsPlain(arguments: seq<Argument>)
    requires Printable(arguments)
    ensures AllPlain(PrintedAll(arguments))
    decreases arguments
  {
    if arguments != [] {
      RestIsPrintable(arguments);
      PrintedIsPlain(arguments[1..]);
    }
  }

  /** However a line is put together from a path and options, the parser finds them again. */
  lemma ParseInvertsPrint(build: Build, path: Text, arguments: seq<Argument>)
    requires path != [] && Plain(path) && Printable(arguments)
    ensures Parse(build, Split(Join([path] + PrintedAll(arguments)), 0))
      == Parsed(Effects(DEFAULT_COMMAND.(pathOrURL := path), arguments))
  {
    var pieces := [path] + PrintedAll(arguments);
    PrintedIsPlain(arguments);
    assert Join(pieces)[0..] == Join(pieces);
    SplitInvertsJoin(Join(pieces), 0, pieces);
    assert pieces[1..] == PrintedAll(arguments);
    ParseOptionsOfPrint(build, pieces, 1, arguments, DEFAULT_COMMAND.(pathOrURL := path));
  }

  function ArgumentsOf(c: TestCommand): seq<Argument> {
    [Timeout(c.timeout)] + if c.shouldDumpPixels then [Pixels(true, c.expectedPixelHash)] else []
  }

  /** Every command with a path, and with a hash only for pixel tests, has a line that parses to it. */
  lemma EveryCommandHasALine(build: Build, c: TestCommand)
    requires c.pathOrURL != [] && Plain(c.pathOrURL) && Plain(c.expectedPixelHash)
    requires !c.shouldDumpPixels ==> c.expectedPixelHash == []
    ensures Parse(build, Split(Join([c.pathOrURL] + PrintedAll(ArgumentsOf(c))), 0)) == Parsed(c)
  {
    var arguments, c0 := ArgumentsOf(c), DEFAULT_COMMAND.(pathOrURL := c.pathOrURL);
    ParseInvertsPrint(build, c.pathOrURL, arguments);
    var c1 := Effect(c0, arguments[0]);
    if c.shouldDumpPixels {
      assert arguments[1..] == [Pixels(true, c.expectedPixelHash)];
      assert Effects(c1, arguments[1..]) == Effects(Effect(c1, arguments[1]), []);
    } else {
      assert arguments[1..] == [];
    }
  }
}
