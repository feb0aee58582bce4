/**
 Where a compact radix trie has its nodes, in terms of the keywords alone: at
 keyword ends and where keywords branch.
 */
module KeywordNodes {
  import opened Options
  import opened KeywordTrie

  /** Some node below t (or t itself) is reached by exactly s. */
  predicate HasNode(t: Tree, s: string)
    decreases t
  {
    s == "" ||
    var i := ChildFor(t.kids, s);
    i < |t.kids| && HasNode(t.kids[i], s[|t.kids[i].prefix|..])
  }

  /** a and b go on differently behind their common start s. */
  predicate Fork(s: string, a: string, b: string) {
    s <= a && s <= b && |s| < |a| && |s| < |b| && a[|s|] != b[|s|]
  }

  ghost predicate Branches(words: map<string, string>, s: string) {
    exists a, b :: a in words && b in words && Fork(s, a, b)
  }

  /** s is a keyword, or keywords branch behind it. */
  ghost predicate Stops(words: map<string, string>, s: string) {
    s in words || Branches(words, s)
  }

  /** No stretch of more than eight characters of a keyword is without a keyword end or a branch. */
  ghost predicate ShortStretches(words: map<string, string>) {
    forall k: string, i: nat :: k in words && i + 8 < |k| ==> StopsWithin(words, k, i)
  }

  ghost predicate StopsWithin(words: map<string, string>, k: string, i: nat)
    requires i + 8 < |k|
  {
    exists j :: i < j <= i + 8 && Stops(words, k[..j])
  }

  /** The same of the chunks in a trie. */
  ghost predicate ShortChunks(t: Tree) {
    forall i :: 0 <= i < |t.kids| ==> |t.kids[i].prefix| <= 8 && ShortChunks(t.kids[i])
  }

  ghost predicate IsTableOf(t: Tree, words: map<string, string>) {
    forall s :: Find(t, s) == if s in words then Some(words[s]) else None
  }

  // ---- going through a child ------------------------------------------------------

  lemma FindBelow(t: Tree, i: nat, r: string)
    requires Radix(t) && i < |t.kids|
    ensures Find(t, t.kids[i].prefix + r) == Find(t.kids[i], r)
    ensures HasNode(t, t.kids[i].prefix + r) == HasNode(t.kids[i], r)
  {
    var s := t.kids[i].prefix + r;
    ChildIs(t.kids, s, i);
    assert s[|t.kids[i].prefix|..] == r;
  }

  /** In a compact trie every node leads to a keyword. */
  lemma {:induction false} SomeKeyword(t: Tree) returns (s: string)
    requires Radix(t) && Compact(t) && (t.value.Some? || t.kids != [])
    ensures Find(t, s).Some?
    decreases t
  {
    if t.value.Some? { return ""; }
    var r := SomeKeyword(t.kids[0]);
    FindBelow(t, 0, r);
    s := t.kids[0].prefix + r;
  }

  lemma {:induction false} FoundIsNode(t: Tree, s: string)
    requires Find(t, s).Some?
    ensures HasNode(t, s)
    decreases t
  {
    if s != "" {
      var i := ChildFor(t.kids, s);
      FoundIsNode(t.kids[i], s[|t.kids[i].prefix|..]);
    }
  }

  lemma ForkSplits(p: string, s: string, a: string, b: string)
    ensures Fork(p + s, p + a, p + b) <==> Fork(s, a, b)
  {
    PrefixSplits(p, s, p + a);
    PrefixSplits(p, s, p + b);
    assert (p + a)[|p|..] == a && (p + b)[|p|..] == b;
  }

  lemma ForkBehind(p: string, s: string, a: string, b: string)
    requires Fork(s, a, b) && p <= a && p <= b
    ensures p <= s && Fork(s[|p|..], a[|p|..], b[|p|..])
  {
    assert |p| <= |s|;
    assert a[..|p|] == s[..|p|];
    assert p + s[|p|..] == s && p + a[|p|..] == a && p + b[|p|..] == b;
    ForkSplits(p, s[|p|..], a[|p|..], b[|p|..]);
  }

  // ---- nodes are where keywords end or branch -----------------------------------------

  lemma {:induction false} ForkIsNode(t: Tree, s: string, a: string, b: string)
    requires Radix(t) && Find(t, a).Some? && Find(t, b).Some? && Fork(s, a, b)
    ensures HasNode(t, s)
    decreases t
  {
    if s != "" {
      var i := ChildFor(t.kids, a);
      var j := ChildFor(t.kids, b);
      var p := t.kids[i].prefix;
      assert p[0] == a[0] == s[0] == b[0] == t.kids[j].prefix[0];
      assert i == j;
      ForkBehind(p, s, a, b);
      ChildIs(t.kids, s, i);
      ForkIsNode(t.kids[i], s[|p|..], a[|p|..], b[|p|..]);
    }
  }

  /** A node that holds no keyword: two keywords branch there. */
  lemma {:induction false} NodeForks(t: Tree, s: string) returns (a: string, b: string)
    requires Radix(t) && Compact(t) && HasNode(t, s) && Find(t, s) == None && (s == "" ==> |t.kids| >= 2)
    ensures Find(t, a).Some? && Find(t, b).Some? && Fork(s, a, b)
    decreases t
  {
    if s == "" {
      var ra := SomeKeyword(t.kids[0]);
      var rb := SomeKeyword(t.kids[1]);
      FindBelow(t, 0, ra);
      FindBelow(t, 1, rb);
      a, b := t.kids[0].prefix + ra, t.kids[1].prefix + rb;
    } else {
      var i := ChildFor(t.kids, s);
      var p := t.kids[i].prefix;
      assert p + s[|p|..] == s;
      var ra, rb := NodeForks(t.kids[i], s[|p|..]);
      FindBelow(t, i, ra);
      FindBelow(t, i, rb);
      ForkSplits(p, s[|p|..], ra, rb);
      a, b := p + ra, p + rb;
    }
  }

  lemma NodeIffStop(t: Tree, words: map<string, string>, s: string)
    requires Radix(t) && Compact(t) && IsTableOf(t, words) && s != ""
    ensures HasNode(t, s) <==> Stops(words, s)
  {
    if s in words {
      FoundIsNode(t, s);
    } else if HasNode(t, s) {
      var a, b := NodeForks(t, s);
      assert a in words && b in words;
    } else if Branches(words, s) {
      var a, b :| a in words && b in words && Fork(s, a, b);
      ForkIsNode(t, s, a, b);
    }
  }

  // ---- chunks are the stretches between nodes -------------------------------------------

  lemma FirstChunk(t: Tree, k: string) returns (c: nat)
    requires Radix(t) && ShortChunks(t) && Find(t, k).Some? && k != ""
    ensures c < |t.kids| && Radix(t.kids[c]) && ShortChunks(t.kids[c])
    ensures var p := t.kids[c].prefix; p <= k && |p| <= 8 && Find(t.kids[c], k[|p|..]).Some?
  {
    c := ChildFor(t.kids, k);
  }

  /** With short chunks there is a node in every stretch of a keyword. */
  lemma {:induction false} NodeInStretch(t: Tree, k: string, i: nat) returns (j: nat)
    requires Radix(t) && ShortChunks(t) && Find(t, k).Some? && i + 8 < |k|
    ensures i < j <= i + 8 && HasNode(t, k[..j])
    decreases t
  {
    hide Radix, ShortChunks, Find;
    var c := FirstChunk(t, k);
    var p := t.kids[c].prefix;
    j := |p|;
    if i >= |p| {
      var h := NodeInStretch(t.kids[c], k[|p|..], i - |p|);
      j := h + |p|;
    }
    NodeBehind(t, c, k, j);
  }

  lemma NodeBehind(t: Tree, c: nat, k: string, j: nat)
    requires Radix(t) && c < |t.kids| && t.kids[c].prefix <= k && |t.kids[c].prefix| <= j <= |k|
    ensures var p := t.kids[c].prefix; HasNode(t, k[..j]) == HasNode(t.kids[c], k[|p|..][..j - |p|])
  {
    hide HasNode, Radix;
    var p := t.kids[c].prefix;
    assert k[..j] == p + k[|p|..][..j - |p|];
    FindBelow(t, c, k[|p|..][..j - |p|]);
  }

  /** A long chunk is a stretch of a keyword without a node. */
  lemma {:induction false} LongChunk(t: Tree) returns (k: string, i: nat)
    requires Radix(t) && Compact(t) && !ShortChunks(t)
    ensures Find(t, k).Some? && i + 8 < |k| && forall j :: i < j <= i + 8 ==> !HasNode(t, k[..j])
    decreases t
  {
    var c :| 0 <= c < |t.kids| && !(|t.kids[c].prefix| <= 8 && ShortChunks(t.kids[c]));
    var p := t.kids[c].prefix;
    if |p| > 8 {
      var r := SomeKeyword(t.kids[c]);
      FindBelow(t, c, r);
      k, i := p + r, 0;
      forall j | 0 < j <= 8 ensures !HasNode(t, k[..j]) { InsideChunk(t, c, r, j); }
    } else {
      var r, h := LongChunk(t.kids[c]);
      FindBelow(t, c, r);
      k, i := p + r, h + |p|;
      forall j | i < j <= i + 8 ensures !HasNode(t, k[..j]) {
        NodeBehind(t, c, k, j);
        assert k[|p|..] == r;
      }
    }
  }

  lemma InsideChunk(t: Tree, c: nat, r: string, j: nat)
    requires Radix(t) && c < |t.kids| && 0 < j < |t.kids[c].prefix|
    ensures !HasNode(t, (t.kids[c].prefix + r)[..j])
  {
    var s := (t.kids[c].prefix + r)[..j];
    assert s[0] == t.kids[c].prefix[0];
    ChildOrNone(t.kids, s, c);
  }

  /** All chunks are short exactly when all stretches between keyword ends and branches are. */
  lemma ShortIff(t: Tree, words: map<string, string>)
    requires Radix(t) && Compact(t) && IsTableOf(t, words)
    ensures ShortChunks(t) <==> ShortStretches(words)
  {
    if ShortChunks(t) {
      forall k: string, i: nat | k in words && i + 8 < |k| ensures StopsWithin(words, k, i) {
        var j := NodeInStretch(t, k, i);
        NodeIffStop(t, words, k[..j]);
      }
    } else {
      var k, i := LongChunk(t);
      assert k in words;
      forall j | i < j <= i + 8 ensures !Stops(words, k[..j]) { NodeIffStop(t, words, k[..j]); }
      assert !StopsWithin(words, k, i);
    }
  }
}
