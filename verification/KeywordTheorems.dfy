/**
 The promises of the generated keyword matcher: it is a table look-up, it never
 reads past maxTokenLength, and the order of siblings does not matter.
 */
module KeywordTheorems {
  import opened Options
  import opened KeywordTrie
  import opened KeywordNodes
  import opened KeywordWeights
  import opened KeywordMatcher
  import M = CompareMacros

  function Longest(table: Table): nat {
    if table == [] then 0 else
      var n := |table| - 1;
      var l := Longest(table[..n]);
      if |table[n].0| > l then |table[n].0| else l
  }

  lemma {:induction false} LongestBounds(table: Table)
    ensures forall k :: k in Meaning(table) ==> |k| <= Longest(table)
    ensures table != [] ==> exists k :: k in Meaning(table) && |k| == Longest(table)
    ensures table == [] ==> Longest(table) == 0
  {
    if table != [] {
      var n := |table| - 1;
      LongestBounds(table[..n]);
      if |table[n].0| >= Longest(table[..n]) {
        assert table[n].0 in Meaning(table);
      } else {
        var k :| k in Meaning(table[..n]) && |k| == Longest(table[..n]);
        assert k in Meaning(table);
      }
    }
  }

  /** No keyword below t is longer than MaxLength(t). */
  lemma {:induction false} MaxLengthBounds(t: Tree, s: string)
    requires FilledBelow(t) && Find(t, s).Some?
    ensures |t.fullPrefix| + |s| <= MaxLength(t)
    decreases t
  {
    MaxOverBounds(|t.fullPrefix|, t.kids);
    if s != "" {
      var i := ChildFor(t.kids, s);
      MaxLengthBounds(t.kids[i], s[|t.kids[i].prefix|..]);
    }
  }

  /** In a compact trie, MaxLength(t) is the length of a keyword. */
  lemma {:induction false} MaxLengthIsReached(t: Tree) returns (s: string)
    requires Radix(t) && Compact(t) && FilledBelow(t) && (t.value.Some? || t.kids != [])
    ensures Find(t, s).Some? && |t.fullPrefix| + |s| == MaxLength(t)
    decreases t
  {
    MaxOverBounds(|t.fullPrefix|, t.kids);
    if t.kids == [] { return ""; }
    if MaxLength(t) == |t.fullPrefix| {
      MaxOverBounds(|t.kids[0].fullPrefix|, t.kids[0].kids);
      assert false;
    }
    var i :| 0 <= i < |t.kids| && MaxLength(t.kids[i]) == MaxLength(t);
    var r := MaxLengthIsReached(t.kids[i]);
    s := t.kids[i].prefix + r;
    ChildIs(t.kids, s, i);
    assert s[|t.kids[i].prefix|..] == r;
  }

  lemma FinalTreeMeans(ws: WeightList, table: Table, s: string)
    ensures var t := FinalTree(ws, table);
      && Radix(t) && Compact(t) && FilledBelow(t) && Sorted(t) && t.fullPrefix == ""
      && Reordered(BuildCoalesced(table), t)
    ensures Find(FinalTree(ws, table), s) ==
      if s in Meaning(table) then Some(Meaning(table)[s]) else None
  {
    var t := BuildCoalesced(table);
    CoalescedTable(table, s);
    FillOutReorders(ws, t, "");
    ReorderingKeepsShape(t, FinalTree(ws, table));
    ReorderingKeepsTable(t, FinalTree(ws, table), s);
  }

  /** maxTokenLength is one more than the length of the longest keyword. */
  lemma MaxLengthIsLongest(ws: WeightList, table: Table)
    ensures MaxLength(FinalTree(ws, table)) == Longest(table)
  {
    hide FinalTree, Radix, Compact, FilledBelow, Find, Sorted, Reordered, Longest;
    var t := FinalTree(ws, table);
    LongestBounds(table);
    FinalTreeMeans(ws, table, "");
    if table != [] {
      var k :| k in Meaning(table) && |k| == Longest(table);
      FinalTreeMeans(ws, table, k);
      MaxLengthBounds(t, k);
      if t.value.Some? || t.kids != [] {
        var s := MaxLengthIsReached(t);
        FinalTreeMeans(ws, table, s);
      }
    } else if t.value.Some? || t.kids != [] {
      var s := MaxLengthIsReached(t);
      FinalTreeMeans(ws, table, s);
    }
  }

  // ---- which tables have a generated header that compiles ---------------------------

  /** Every COMPARE_n in the code is one of COMPARE_2 to COMPARE_8. */
  ghost predicate MacrosDefined(b: Block)
    decreases b
  {
    forall i :: 0 <= i < |b.arms| ==> ArmDefined(b.arms[i])
  }

  ghost predicate ArmDefined(arm: Arm)
    decreases arm
  {
    (arm.test.Compare? ==> 2 <= |arm.test.cs| <= 8) && MacrosDefined(arm.body)
  }

  lemma {:induction false} DefinedIffShortChunks(ty: M.CharType, t: Tree)
    requires Radix(t) && FilledBelow(t)
    ensures MacrosDefined(Emit(ty, t)) <==> ShortChunks(t)
    decreases t
  {
    var arms := EmitArms(ty, |t.fullPrefix|, t.kids);
    EmitArmsIsPointwise(ty, |t.fullPrefix|, t.kids);
    forall i | 0 <= i < |t.kids|
      ensures ArmDefined(arms[i]) <==> |t.kids[i].prefix| <= 8 && ShortChunks(t.kids[i])
    {
      DefinedIffShortChunks(ty, t.kids[i]);
    }
  }

  /** Behind the first character no three characters are compared on their own. */
  ghost predicate NoThree(b: Block)
    decreases b
  {
    forall i :: 0 <= i < |b.arms| ==> NoThreeIn(b.arms[i])
  }

  ghost predicate NoThreeIn(arm: Arm)
    decreases arm
  {
    (arm.test.Compare? && |arm.test.cs| == 3 ==> arm.test.at == 0) && NoThree(arm.body)
  }

  /** A chunk of three is compared together with the character before it, unless it begins the keyword. */
  lemma {:induction false} ThreesAreWidened(ty: M.CharType, t: Tree)
    requires FilledBelow(t)
    ensures NoThree(Emit(ty, t))
    decreases t
  {
    var arms := EmitArms(ty, |t.fullPrefix|, t.kids);
    EmitArmsIsPointwise(ty, |t.fullPrefix|, t.kids);
    forall i | 0 <= i < |t.kids| ensures NoThreeIn(arms[i]) { ThreesAreWidened(ty, t.kids[i]); }
  }

  ghost predicate KeywordsFit(ty: M.CharType, t: Tree) {
    forall s :: Find(t, s).Some? ==> M.AllFit(ty, t.fullPrefix + s)
  }

  lemma KidKeywordsFit(ty: M.CharType, t: Tree, i: nat)
    requires Radix(t) && FilledBelow(t) && KeywordsFit(ty, t) && i < |t.kids|
    ensures KeywordsFit(ty, t.kids[i])
  {
    var kid := t.kids[i];
    forall r | Find(kid, r).Some? ensures M.AllFit(ty, kid.fullPrefix + r) {
      FindThroughKid(t, i, r);
      assert M.AllFit(ty, t.fullPrefix + (kid.prefix + r));
    }
  }

  lemma FindThroughKid(t: Tree, i: nat, r: string)
    requires Radix(t) && FilledBelow(t) && i < |t.kids|
    ensures Find(t, t.kids[i].prefix + r) == Find(t.kids[i], r)
    ensures t.fullPrefix + (t.kids[i].prefix + r) == t.kids[i].fullPrefix + r
  {
    var s := t.kids[i].prefix + r;
    ChildIs(t.kids, s, i);
    assert s[|t.kids[i].prefix|..] == r;
  }

  /** In a compact trie every character of a full prefix belongs to a keyword. */
  lemma PrefixFits(ty: M.CharType, t: Tree)
    requires Radix(t) && Compact(t) && FilledBelow(t) && KeywordsFit(ty, t) && (t.value.Some? || t.kids != [])
    ensures M.AllFit(ty, t.fullPrefix)
  {
    var r := MaxLengthIsReached(t);
    forall j | 0 <= j < |t.fullPrefix| ensures M.Fits(ty, t.fullPrefix[j]) {
      assert t.fullPrefix[j] == (t.fullPrefix + r)[j];
    }
  }

  lemma {:induction false} ChunksFit(ty: M.CharType, t: Tree)
    requires Radix(t) && Compact(t) && FilledBelow(t) && ShortChunks(t) && KeywordsFit(ty, t)
    ensures Comparable(ty, t)
    decreases t
  {
    forall i | 0 <= i < |t.kids| ensures M.AllFit(ty, t.kids[i].prefix) && Comparable(ty, t.kids[i]) {
      var kid := t.kids[i];
      KidKeywordsFit(ty, t, i);
      PrefixFits(ty, kid);
      forall j | 0 <= j < |kid.prefix| ensures M.Fits(ty, kid.prefix[j]) {
        assert kid.prefix[j] == kid.fullPrefix[|t.fullPrefix| + j];
      }
      ChunksFit(ty, kid);
    }
  }

  // ---- the main theorem ------------------------------------------------------------------

  ghost predicate WordsFit(ty: M.CharType, table: Table) {
    forall k :: k in Meaning(table) ==> M.AllFit(ty, k)
  }

  lemma FinalTreeIsTable(ws: WeightList, table: Table)
    ensures var t := FinalTree(ws, table); Radix(t) && Compact(t) && FilledBelow(t) && IsTableOf(t, Meaning(table))
    ensures ShortChunks(FinalTree(ws, table)) <==> ShortStretches(Meaning(table))
  {
    FinalTreeMeans(ws, table, "");
    forall s ensures Find(FinalTree(ws, table), s) == if s in Meaning(table) then Some(Meaning(table)[s]) else None {
      FinalTreeMeans(ws, table, s);
    }
    ShortIff(FinalTree(ws, table), Meaning(table));
  }

  lemma FinalTreeIsReady(ws: WeightList, table: Table, m: Machine)
    requires WordsFit(m.ty, table) && ShortStretches(Meaning(table))
    requires |m.mem| >= M.Bytes(m.ty, MaxLength(FinalTree(ws, table)) + 1)
    ensures Ready(m, FinalTree(ws, table))
  {
    hide FinalTree, Radix, Compact, FilledBelow, ShortStretches, ShortChunks, Find, Sorted, Reordered, Comparable;
    var t := FinalTree(ws, table);
    FinalTreeMeans(ws, table, "");
    FinalTreeIsTable(ws, table);
    forall s | Find(t, s).Some? ensures M.AllFit(m.ty, t.fullPrefix + s) { assert t.fullPrefix + s == s; }
    ChunksFit(m.ty, t);
  }

  /** The code printed for one character type. */
  function Generated(ws: WeightList, table: Table, ty: M.CharType): Block {
    FinalTreeMeans(ws, table, "");
    Emit(ty, FinalTree(ws, table))
  }

  /**
   The generated code uses only defined macros exactly when no stretch of more than
   eight characters of a keyword is without a keyword end or a branch.
   */
  lemma DefinedIffShort(ws: WeightList, table: Table, ty: M.CharType)
    ensures MacrosDefined(Generated(ws, table, ty)) <==> ShortStretches(Meaning(table))
  {
    FinalTreeIsTable(ws, table);
    DefinedIffShortChunks(ty, FinalTree(ws, table));
  }

  lemma LoneLongWord(k: string, token: string)
    requires |k| > 8
    ensures !ShortStretches(map[k := token])
  {
    forall j | 0 < j <= 8 ensures !Stops(map[k := token], k[..j]) { assert |k[..j]| == j; }
    assert !StopsWithin(map[k := token], k, 0);
  }

  /** A single keyword of more than eight characters, such as implements, gives a header that does not compile. */
  lemma LongKeywordNeedsMissingMacro(ws: WeightList, ty: M.CharType, k: string, token: string)
    requires |k| > 8
    ensures !MacrosDefined(Generated(ws, [(k, token)], ty))
  {
    assert [(k, token)][..0] == [];
    assert Meaning([(k, token)]) == Meaning([])[k := token] == map[k := token];
    LoneLongWord(k, token);
    DefinedIffShort(ws, [(k, token)], ty);
  }

  /**
   For every table, machine and text of at least maxTokenLength characters, the
   emitted code is the look-up of the shortest keyword that the text reads.
   */
  lemma CompilerCorrect(ws: WeightList, table: Table, m: Machine)
    requires WordsFit(m.ty, table) && ShortStretches(Meaning(table))
    requires |m.mem| >= M.Bytes(m.ty, MaxLength(FinalTree(ws, table)) + 1)
    ensures IsLookup(m, Meaning(table), Run(m, Generated(ws, table, m.ty)))
  {
    var t := FinalTree(ws, table);
    FinalTreeIsReady(ws, table, m);
    RunFinds(m, t);
    FinalTreeMeans(ws, table, "");
    FinalTreeIsTable(ws, table);
    FindIsLookup(m, t, Meaning(table), Run(m, Generated(ws, table, m.ty)));
  }

  lemma FindIsLookup(m: Machine, t: Tree, words: map<string, string>, out: Outcome)
    requires IsFind(m, t, out) && t.fullPrefix == ""
    requires forall s :: Find(t, s) == if s in words then Some(words[s]) else None
    ensures IsLookup(m, words, out)
  {
    forall s ensures Hit(m, t, s) <==> s in words && Reads(m, s) { assert "" + s == s; }
    if out.Returned? { assert out.ident[|t.fullPrefix|..] == out.ident; }
  }

  ghost predicate IdentParts(m: Machine, k: string) {
    forall j :: 0 <= j < |k| ==> m.isIdentPart(k[j] as int)
  }

  /**
   When keywords are made of identifier-part characters, keyword k's token is
   returned exactly when the text reads k, and IDENT when it reads none.
   */
  lemma KeywordIffRead(ws: WeightList, table: Table, m: Machine, k: string)
    requires WordsFit(m.ty, table) && ShortStretches(Meaning(table))
    requires |m.mem| >= M.Bytes(m.ty, MaxLength(FinalTree(ws, table)) + 1)
    requires (forall w :: w in Meaning(table) ==> IdentParts(m, w)) && k in Meaning(table)
    ensures var code := Generated(ws, table, m.ty);
      && (Reads(m, k) <==> Run(m, code) == Returned(Meaning(table)[k], |k|, k))
      && ((forall w :: w in Meaning(table) ==> !Reads(m, w)) <==> Run(m, code) == FellThrough)
      && ParseKeyword(m, code) == if Run(m, code) == FellThrough then Returned("IDENT", 0, "") else Run(m, code)
  {
    CompilerCorrect(ws, table, m);
    if Reads(m, k) { OnlyKeywordRead(m, Meaning(table), Run(m, Generated(ws, table, m.ty)), k); }
  }

  lemma OnlyKeywordRead(m: Machine, words: map<string, string>, out: Outcome, k: string)
    requires IsLookup(m, words, out) && k in words && Reads(m, k) && IdentParts(m, k)
    ensures out == Returned(words[k], |k|, k)
  {
    var w := out.ident;
    assert forall j: nat :: j < |k| ==> m.isIdentPart(M.CharAt(m.ty, m.mem, j));
    SameText(m, k, w);
  }

  lemma SameText(m: Machine, a: string, b: string)
    requires StartsWith(m, a) && StartsWith(m, b) && |a| == |b|
    ensures a == b
  {
    forall j | 0 <= j < |a| ensures a[j] == b[j] {
      assert M.CharAt(m.ty, m.mem, j) == a[j] as int;
      assert M.CharAt(m.ty, m.mem, j) == b[j] as int;
    }
  }

  /** Only one outcome is the look-up in a table. */
  lemma LookupIsUnique(m: Machine, words: map<string, string>, a: Outcome, b: Outcome)
    requires IsLookup(m, words, a) && IsLookup(m, words, b)
    ensures a == b
  {
    if a.Returned? && b.Returned? { SameText(m, a.ident, b.ident); }
  }

  /** The outcome depends on the first maxTokenLength characters only, and no load leaves them. */
  lemma ReadBound(ws: WeightList, table: Table, m: Machine)
    requires WordsFit(m.ty, table) && ShortStretches(Meaning(table))
    requires |m.mem| >= M.Bytes(m.ty, Longest(table) + 1)
    ensures var code := Generated(ws, table, m.ty);
      var cut := m.(mem := m.mem[..M.Bytes(m.ty, Longest(table) + 1)]);
      Run(cut, code) == Run(m, code) && Run(cut, code) != Fault
  {
    var n := M.Bytes(m.ty, Longest(table) + 1);
    var cut := m.(mem := m.mem[..n]);
    EnoughText(ws, table, m);
    EnoughText(ws, table, cut);
    SameLookupWhenCut(m, n, Meaning(table), Generated(ws, table, m.ty));
  }

  lemma EnoughText(ws: WeightList, table: Table, m: Machine)
    requires WordsFit(m.ty, table) && ShortStretches(Meaning(table))
    requires |m.mem| >= M.Bytes(m.ty, Longest(table) + 1)
    ensures IsLookup(m, Meaning(table), Run(m, Generated(ws, table, m.ty)))
    ensures forall k :: k in Meaning(table) ==> |k| <= Longest(table)
  {
    MaxLengthIsLongest(ws, table);
    CompilerCorrect(ws, table, m);
    LongestBounds(table);
  }

  lemma SameLookupWhenCut(m: Machine, n: nat, words: map<string, string>, code: Block)
    requires n <= |m.mem| && forall k :: k in words ==> M.Bytes(m.ty, |k| + 1) <= n
    requires IsLookup(m, words, Run(m, code))
    requires IsLookup(m.(mem := m.mem[..n]), words, Run(m.(mem := m.mem[..n]), code))
    ensures Run(m.(mem := m.mem[..n]), code) == Run(m, code)
  {
    forall k | k in words ensures Reads(m.(mem := m.mem[..n]), k) <==> Reads(m, k) { CutReadsSame(m, n, k); }
    LookupIsUnique(m, words, Run(m, code), Run(m.(mem := m.mem[..n]), code));
  }

  lemma CutReadsSame(m: Machine, n: nat, k: string)
    requires n <= |m.mem| && M.Bytes(m.ty, |k| + 1) <= n
    ensures Reads(m.(mem := m.mem[..n]), k) <==> Reads(m, k)
  {
    forall j: nat | j <= |k| ensures M.CharAt(m.ty, m.mem[..n], j) == M.CharAt(m.ty, m.mem, j) {
      M.LoadSplits2(m.mem, M.Bytes(m.ty, j), M.Bytes(m.ty, 1));
      M.LoadSplits2(m.mem[..n], M.Bytes(m.ty, j), M.Bytes(m.ty, 1));
    }
  }

  // ---- sibling order -----------------------------------------------------------------------

  lemma Rejoin(p: string, s: string)
    requires p <= s
    ensures p + s[|p|..] == s
  {
  }

  /** What IsFind says about a returned keyword, in terms of the text alone. */
  lemma FoundText(m: Machine, t: Tree, a: Outcome) returns (r: string)
    requires IsFind(m, t, a) && a.Returned?
    ensures a.ident == t.fullPrefix + r && a.shift == |a.ident| && StartsWith(m, a.ident)
    ensures Hit(m, t, r) && Find(t, r) == Some(a.token)
    ensures forall s :: Hit(m, t, s) ==> |r| <= |s|
  {
    Rejoin(t.fullPrefix, a.ident);
    r := a.ident[|t.fullPrefix|..];
  }

  lemma {:induction false} ReorderingKeepsChunks(ty: M.CharType, t: Tree, u: Tree)
    requires Reordered(t, u) && Comparable(ty, t)
    ensures Comparable(ty, u)
    decreases t
  {
    var order :| Permutes(order, |t.kids|) &&
      forall i :: 0 <= i < |t.kids| ==> Reordered(t.kids[order[i]], u.kids[i]);
    forall i | 0 <= i < |u.kids|
      ensures |u.kids[i].prefix| <= 8 && M.AllFit(ty, u.kids[i].prefix) && Comparable(ty, u.kids[i])
    {
      ReorderingKeepsChunks(ty, t.kids[order[i]], u.kids[i]);
    }
  }

  lemma {:induction false} ReorderingKeepsLength(t: Tree, u: Tree)
    requires Reordered(t, u) && FilledBelow(t) && FilledBelow(u) && t.fullPrefix == u.fullPrefix
    ensures MaxLength(u) <= MaxLength(t)
    decreases t
  {
    var order :| Permutes(order, |t.kids|) &&
      forall i :: 0 <= i < |t.kids| ==> Reordered(t.kids[order[i]], u.kids[i]);
    MaxOverBounds(|t.fullPrefix|, t.kids);
    MaxOverBounds(|u.fullPrefix|, u.kids);
    forall i | 0 <= i < |u.kids| ensures MaxLength(u.kids[i]) <= MaxLength(t) {
      ReorderingKeepsLength(t.kids[order[i]], u.kids[i]);
      assert MaxLength(t.kids[order[i]]) <= MaxOver(|t.fullPrefix|, t.kids);
    }
  }

  lemma ReorderingKeepsReady(m: Machine, t: Tree, u: Tree)
    requires Ready(m, t) && Reordered(t, u) && FilledBelow(u) && t.fullPrefix == u.fullPrefix
    ensures Ready(m, u)
  {
    ReorderingKeepsShape(t, u);
    ReorderingKeepsChunks(m.ty, t, u);
    ReorderingKeepsLength(t, u);
  }

  /** Any permutation of siblings, at any node, gives a matcher with the same outcome on every text. */
  lemma SiblingOrderIsHarmless(m: Machine, t: Tree, u: Tree)
    requires Ready(m, t) && Reordered(t, u) && FilledBelow(u) && t.fullPrefix == u.fullPrefix
    ensures Run(m, Emit(m.ty, t)) == Run(m, Emit(m.ty, u))
  {
    ReorderingKeepsReady(m, t, u);
    RunFinds(m, t);
    RunFinds(m, u);
    SameFindsSameOutcome(m, t, u, Run(m, Emit(m.ty, t)), Run(m, Emit(m.ty, u)));
  }

  lemma SameFindsSameOutcome(m: Machine, t: Tree, u: Tree, a: Outcome, b: Outcome)
    requires Radix(t) && Reordered(t, u) && t.fullPrefix == u.fullPrefix
    requires IsFind(m, t, a) && IsFind(m, u, b)
    ensures a == b
  {
    forall s ensures Find(t, s) == Find(u, s) && (Hit(m, t, s) <==> Hit(m, u, s)) { ReorderingKeepsTable(t, u, s); }
    if a.Returned? && b.Returned? {
      var r := FoundText(m, t, a);
      var s := FoundText(m, u, b);
      assert |r| == |s|;
      SameText(m, a.ident, b.ident);
      assert r == a.ident[|t.fullPrefix|..] && s == b.ident[|t.fullPrefix|..];
    } else if a.Returned? {
      var r := FoundText(m, t, a);
    } else if b.Returned? {
      var s := FoundText(m, u, b);
    }
  }
}
