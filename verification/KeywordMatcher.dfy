/**
 The decision tree that `printSubTreeAsC` emits, an interpreter for it over raw
 memory, and the proof that running it is looking the text up in the keyword table.
 */
module KeywordMatcher {
  import opened Options
  import opened KeywordTrie
  import opened KeywordWeights
  import B = Bits
  import M = CompareMacros

  // ---- the emitted code -------------------------------------------------------

  datatype Test =
    | CharIs(at: nat, c: char)
    | Compare(ty: M.CharType, at: nat, cs: string)

  /** `if (!isIdentPart(code[at])) { internalShift<shift>(); ident = ...; return token; }` */
  datatype Guard = Guard(at: nat, shift: nat, ident: string, token: string)

  /** An optional guard followed by one `if ... else if ...` chain. */
  datatype Block = Block(guard: Option<Guard>, arms: seq<Arm>)
  datatype Arm = Arm(test: Test, body: Block)

  function EmitGuard(t: Tree): Option<Guard> {
    match t.value
    case None => None
    case Some(token) => Some(Guard(|t.fullPrefix|, |t.fullPrefix|, t.fullPrefix, token))
  }

  /** The test that selects kid; a chunk of three is widened to four by re-reading a character. */
  function EmitTest(ty: M.CharType, rootIndex: nat, kid: Tree): Test
    requires rootIndex <= |kid.fullPrefix|
  {
    var widen := rootIndex > 0 && |kid.prefix| == 3;
    var base := if widen then rootIndex - 1 else rootIndex;
    var k := if widen then [kid.fullPrefix[base]] + kid.prefix else kid.prefix;
    if |k| == 1 then CharIs(base, k[0]) else Compare(ty, base, k)
  }

  function Emit(ty: M.CharType, t: Tree): Block
    requires FilledBelow(t)
    decreases t
  {
    Block(EmitGuard(t), EmitArms(ty, |t.fullPrefix|, t.kids))
  }

  function EmitArms(ty: M.CharType, rootIndex: nat, kids: seq<Tree>): (r: seq<Arm>)
    requires forall i :: 0 <= i < |kids| ==> rootIndex <= |kids[i].fullPrefix| && FilledBelow(kids[i])
    ensures |r| == |kids|
    decreases kids
  {
    if kids == [] then [] else
      var n := |kids| - 1;
      EmitArms(ty, rootIndex, kids[..n]) + [Arm(EmitTest(ty, rootIndex, kids[n]), Emit(ty, kids[n]))]
  }

  function MaxLength(t: Tree): nat
    decreases t
  {
    MaxOver(|t.fullPrefix|, t.kids)
  }

  function MaxOver(max: nat, kids: seq<Tree>): nat
    decreases kids
  {
    if kids == [] then max else
      var m := MaxOver(max, kids[..|kids| - 1]);
      var l := MaxLength(kids[|kids| - 1]);
      if l > m then l else m
  }

  /** The trie that printAsC prints. */
  function FinalTree(ws: WeightList, table: Table): Tree {
    FillOut(ws, BuildCoalesced(table), "")
  }

  // ---- running it ---------------------------------------------------------------

  /** Everything the generated code depends on when it runs. */
  datatype Machine = Machine(target: M.Target, ty: M.CharType, mem: seq<B.Byte>, isIdentPart: int -> bool)

  datatype Outcome =
    | Fault
    | FellThrough
    | Returned(token: string, shift: nat, ident: string)

  function Holds(m: Machine, test: Test): M.Verdict {
    match test
    case CharIs(at, c) => M.CharIs(m.ty, m.mem, at, c)
    case Compare(ty, at, cs) => M.Compare(m.target, ty, m.mem, at, cs)
  }

  function Run(m: Machine, b: Block): Outcome
    decreases b
  {
    match b.guard
    case None => RunArms(m, b.arms)
    case Some(g) =>
      if !M.InMemory(m.ty, m.mem, g.at) then Fault
      else if !m.isIdentPart(M.CharAt(m.ty, m.mem, g.at)) then Returned(g.token, g.shift, g.ident)
      else RunArms(m, b.arms)
  }

  function RunArms(m: Machine, arms: seq<Arm>): Outcome
    decreases arms
  {
    if arms == [] then FellThrough
    else
      match Holds(m, arms[0].test)
      case Fault => Fault
      case Val(true) => RunArm(m, arms[0])
      case Val(false) => RunArms(m, arms[1..])
  }

  function RunArm(m: Machine, arm: Arm): Outcome
    decreases arm
  {
    Run(m, arm.body)
  }

  /** parseKeyword: what falls through every block reaches `return IDENT`. */
  function ParseKeyword(m: Machine, code: Block): Outcome {
    match Run(m, code)
    case FellThrough => Returned("IDENT", 0, "")
    case out => out
  }

  // ---- what it should do ----------------------------------------------------------

  ghost predicate StartsWith(m: Machine, s: string) {
    M.Bytes(m.ty, |s|) <= |m.mem| && M.Same(m.ty, m.mem, 0, s)
  }

  /** The text starts with s and what follows is not part of an identifier. */
  ghost predicate Reads(m: Machine, s: string) {
    && M.InMemory(m.ty, m.mem, |s|) && StartsWith(m, s)
    && !m.isIdentPart(M.CharAt(m.ty, m.mem, |s|))
  }

  /** out is what a plain table look-up of the shortest matching keyword gives. */
  ghost predicate IsLookup(m: Machine, words: map<string, string>, out: Outcome) {
    match out
    case Fault => false
    case FellThrough => forall k :: k in words ==> !Reads(m, k)
    case Returned(token, shift, ident) =>
      && ident in words && token == words[ident] && shift == |ident| && Reads(m, ident)
      && forall k :: k in words && Reads(m, k) ==> |ident| <= |k|
  }

  /** Every chunk below t can be compared: it has a macro and its characters fit the buffer's type. */
  ghost predicate Comparable(ty: M.CharType, t: Tree) {
    forall i :: 0 <= i < |t.kids| ==>
      |t.kids[i].prefix| <= 8 && M.AllFit(ty, t.kids[i].prefix) && Comparable(ty, t.kids[i])
  }

  // ---- the shape of what is emitted -------------------------------------------------

  lemma {:induction false} EmitArmsIsPointwise(ty: M.CharType, rootIndex: nat, kids: seq<Tree>)
    requires forall i :: 0 <= i < |kids| ==> rootIndex <= |kids[i].fullPrefix| && FilledBelow(kids[i])
    ensures forall i :: 0 <= i < |kids| ==>
      EmitArms(ty, rootIndex, kids)[i] == Arm(EmitTest(ty, rootIndex, kids[i]), Emit(ty, kids[i]))
  {
    hide Emit, EmitTest, FilledBelow;
    if kids != [] { EmitArmsIsPointwise(ty, rootIndex, kids[..|kids| - 1]); }
  }

  lemma {:induction false} MaxOverBounds(max: nat, kids: seq<Tree>)
    ensures max <= MaxOver(max, kids)
    ensures forall i :: 0 <= i < |kids| ==> MaxLength(kids[i]) <= MaxOver(max, kids)
    ensures MaxOver(max, kids) == max || exists i :: 0 <= i < |kids| && MaxLength(kids[i]) == MaxOver(max, kids)
  {
    if kids != [] {
      var n := |kids| - 1;
      MaxOverBounds(max, kids[..n]);
      assert forall i :: 0 <= i < n ==> kids[..n][i] == kids[i];
    }
  }

  lemma SameSplits(m: Machine, a: string, b: string)
    ensures StartsWith(m, a + b) ==> StartsWith(m, a)
    ensures M.Bytes(m.ty, |a + b|) <= |m.mem| && StartsWith(m, a) ==>
      (StartsWith(m, a + b) <==> M.Same(m.ty, m.mem, |a|, b))
  {
    if M.Bytes(m.ty, |a + b|) <= |m.mem| {
      M.SameCovers(m.ty, m.mem, 0, a + b, |a|, |a|);
      assert (a + b)[..|a|] == a && (a + b)[|a|..] == b;
    }
  }

  /** Once t's full prefix has matched, a child's test says whether the child's full prefix matches, widened or not. */
  lemma TestIsPrefix(m: Machine, t: Tree, i: nat)
    requires i < |t.kids| && t.kids[i].fullPrefix == t.fullPrefix + t.kids[i].prefix
    requires 1 <= |t.kids[i].prefix| <= 8 && M.AllFit(m.ty, t.kids[i].prefix) && M.AllFit(m.ty, t.fullPrefix)
    requires StartsWith(m, t.fullPrefix) && M.Bytes(m.ty, |t.kids[i].fullPrefix|) <= |m.mem|
    ensures Holds(m, EmitTest(m.ty, |t.fullPrefix|, t.kids[i])) == M.Val(StartsWith(m, t.kids[i].fullPrefix))
  {
    var kid, full := t.kids[i], t.fullPrefix;
    SameSplits(m, full, kid.prefix);
    if |kid.prefix| == 3 && |full| > 0 {
      var b := |full| - 1;
      var k := [full[b]] + kid.prefix;
      assert kid.fullPrefix == full[..b] + k && full == full[..b] + [full[b]];
      SameSplits(m, full[..b], k);
      SameSplits(m, full[..b], [full[b]]);
      M.CompareIsPlain(m.target, m.ty, m.mem, b, k);
    } else if |kid.prefix| == 1 {
      M.CharIsPlain(m.ty, m.mem, |full|, kid.prefix);
    } else {
      M.CompareIsPlain(m.target, m.ty, m.mem, |full|, kid.prefix);
    }
  }

  // ---- running a subtree is looking up what is below it --------------------------------

  /** s is a keyword below t that the text reads, after t's own full prefix. */
  ghost predicate Hit(m: Machine, t: Tree, s: string) {
    Find(t, s).Some? && Reads(m, t.fullPrefix + s)
  }

  ghost predicate IsFind(m: Machine, t: Tree, out: Outcome) {
    match out
    case Fault => false
    case FellThrough => forall s :: !Hit(m, t, s)
    case Returned(token, shift, ident) =>
      && t.fullPrefix <= ident && shift == |ident|
      && Hit(m, t, ident[|t.fullPrefix|..])
      && Find(t, ident[|t.fullPrefix|..]) == Some(token)
      && forall s :: Hit(m, t, s) ==> |ident| <= |t.fullPrefix| + |s|
  }

  /** What RunFinds needs of a subtree: its shape, its characters, room to read, and a matched full prefix. */
  ghost predicate Ready(m: Machine, t: Tree) {
    && Radix(t) && FilledBelow(t) && Comparable(m.ty, t) && M.AllFit(m.ty, t.fullPrefix)
    && M.Bytes(m.ty, MaxLength(t) + 1) <= |m.mem| && StartsWith(m, t.fullPrefix)
  }

  lemma {:induction false} RunFinds(m: Machine, t: Tree)
    requires Ready(m, t)
    ensures IsFind(m, t, Run(m, Emit(m.ty, t)))
    decreases t, |t.kids| + 1
  {
    MaxOverBounds(|t.fullPrefix|, t.kids);
    assert t.fullPrefix + "" == t.fullPrefix;
    if t.value.Some? && !m.isIdentPart(M.CharAt(m.ty, m.mem, |t.fullPrefix|)) {
      assert t.fullPrefix[|t.fullPrefix|..] == "";
      assert Hit(m, t, "");
    } else {
      var arms := EmitArms(m.ty, |t.fullPrefix|, t.kids);
      assert arms[0..] == arms;
      RunArmsFinds(m, t, 0);
      assert !Hit(m, t, "");
    }
  }

  /** As IsFind, for the keywords longer than t's full prefix. */
  ghost predicate IsFindBelow(m: Machine, t: Tree, out: Outcome) {
    match out
    case Fault => false
    case FellThrough => forall s :: s != "" ==> !Hit(m, t, s)
    case Returned(token, shift, ident) =>
      && t.fullPrefix <= ident && t.fullPrefix != ident && shift == |ident|
      && Hit(m, t, ident[|t.fullPrefix|..])
      && Find(t, ident[|t.fullPrefix|..]) == Some(token)
      && forall s :: s != "" && Hit(m, t, s) ==> |ident| <= |t.fullPrefix| + |s|
  }

  lemma {:induction false} RunArmsFinds(m: Machine, t: Tree, i: nat)
    requires Ready(m, t)
    requires i <= |t.kids| && forall j :: 0 <= j < i ==> !StartsWith(m, t.kids[j].fullPrefix)
    ensures IsFindBelow(m, t, RunArms(m, EmitArms(m.ty, |t.fullPrefix|, t.kids)[i..]))
    decreases t, |t.kids| - i
  {
    if i == |t.kids| {
      NoArmLeft(m, t);
    } else {
      RunArmsStep(m, t, i);
      if StartsWith(m, t.kids[i].fullPrefix) {
        RunFinds(m, t.kids[i]);
        FindsThroughChild(m, t, i, Run(m, Emit(m.ty, t.kids[i])));
      } else {
        RunArmsFinds(m, t, i + 1);
      }
    }
  }

  lemma NoArmLeft(m: Machine, t: Tree)
    requires FilledBelow(t) && forall j :: 0 <= j < |t.kids| ==> !StartsWith(m, t.kids[j].fullPrefix)
    ensures IsFindBelow(m, t, FellThrough)
    ensures EmitArms(m.ty, |t.fullPrefix|, t.kids)[|t.kids|..] == []
  {
    forall s | s != "" ensures !Hit(m, t, s) {
      if Hit(m, t, s) { var j := HitStartsChild(m, t, s); }
    }
  }

  lemma RunArmsStep(m: Machine, t: Tree, i: nat)
    requires Ready(m, t) && i < |t.kids|
    ensures StartsWith(m, t.kids[i].fullPrefix) ==> Ready(m, t.kids[i])
    ensures var arms := EmitArms(m.ty, |t.fullPrefix|, t.kids);
      RunArms(m, arms[i..]) ==
        if StartsWith(m, t.kids[i].fullPrefix) then Run(m, Emit(m.ty, t.kids[i])) else RunArms(m, arms[i + 1..])
  {
    KidFits(m, t, i);
    var arms := EmitArms(m.ty, |t.fullPrefix|, t.kids);
    EmitArmsIsPointwise(m.ty, |t.fullPrefix|, t.kids);
    TestIsPrefix(m, t, i);
    assert arms[i..][0] == arms[i] && arms[i..][1..] == arms[i + 1..];
  }

  lemma KidFits(m: Machine, t: Tree, i: nat)
    requires Ready(m, t) && i < |t.kids|
    ensures M.Bytes(m.ty, |t.kids[i].fullPrefix|) <= |m.mem| && M.AllFit(m.ty, t.kids[i].fullPrefix)
    ensures M.Bytes(m.ty, MaxLength(t.kids[i]) + 1) <= |m.mem|
  {
    MaxOverBounds(|t.fullPrefix|, t.kids);
    MaxOverBounds(|t.kids[i].fullPrefix|, t.kids[i].kids);
  }

  /** A keyword that the text reads below t goes through a child whose full prefix the text starts with. */
  lemma HitStartsChild(m: Machine, t: Tree, s: string) returns (j: nat)
    requires FilledBelow(t) && s != "" && Hit(m, t, s)
    ensures j == ChildFor(t.kids, s) < |t.kids|
    ensures StartsWith(m, t.kids[j].fullPrefix)
    ensures Hit(m, t.kids[j], s[|t.kids[j].prefix|..])
  {
    j := ChildFor(t.kids, s);
    var p := t.kids[j].prefix;
    assert t.fullPrefix + s == t.kids[j].fullPrefix + s[|p|..];
    SameSplits(m, t.kids[j].fullPrefix, s[|p|..]);
  }

  lemma OneChildStarts(m: Machine, t: Tree, i: nat, j: nat)
    requires Radix(t) && FilledBelow(t) && i < |t.kids| && j < |t.kids|
    requires StartsWith(m, t.kids[i].fullPrefix) && StartsWith(m, t.kids[j].fullPrefix)
    ensures i == j
  {
    var at := |t.fullPrefix|;
    assert t.kids[i].prefix[0] == t.kids[i].fullPrefix[at] && t.kids[j].prefix[0] == t.kids[j].fullPrefix[at];
    assert M.CharAt(m.ty, m.mem, at) == t.kids[i].fullPrefix[at] as int;
    assert M.CharAt(m.ty, m.mem, at) == t.kids[j].fullPrefix[at] as int;
  }

  lemma FindsThroughChild(m: Machine, t: Tree, i: nat, out: Outcome)
    requires Radix(t) && FilledBelow(t) && i < |t.kids|
    requires StartsWith(m, t.kids[i].fullPrefix) && IsFind(m, t.kids[i], out)
    ensures IsFindBelow(m, t, out)
  {
    hide Find, Reads, StartsWith, Radix;
    var kid := t.kids[i];
    forall s | s != "" && Hit(m, t, s) ensures kid.prefix <= s && Hit(m, kid, s[|kid.prefix|..]) {
      var j := HitStartsChild(m, t, s);
      OneChildStarts(m, t, i, j);
    }
    if out.Returned? { HitOfChild(m, t, i, out.ident); }
  }

  lemma RejoinsBoth(a: string, b: string, k: string)
    requires a + b <= k
    ensures a <= k && b <= k[|a|..] && k[|a|..][|b|..] == k[|a + b|..]
    ensures a + k[|a|..] == k && a + b + k[|a + b|..] == k
  {
    PrefixSplits(a, b, k);
  }

  lemma HitOfChild(m: Machine, t: Tree, i: nat, ident: string)
    requires Radix(t) && FilledBelow(t) && i < |t.kids|
    requires t.kids[i].fullPrefix <= ident && Hit(m, t.kids[i], ident[|t.kids[i].fullPrefix|..])
    ensures t.fullPrefix <= ident && t.fullPrefix != ident && Hit(m, t, ident[|t.fullPrefix|..])
    ensures Find(t, ident[|t.fullPrefix|..]) == Find(t.kids[i], ident[|t.kids[i].fullPrefix|..])
  {
    hide Reads;
    var s := ident[|t.fullPrefix|..];
    RejoinsBoth(t.fullPrefix, t.kids[i].prefix, ident);
    ChildIs(t.kids, s, i);
  }
}
