/**
 The trie of KeywordLookupGenerator.py as a value: what `insert` and `coalesce`
 compute, and what a trie means as a table from keywords to tokens.
 A Python dictionary of children is the sequence of those children, in the
 dictionary's iteration order; the dictionary key of a child is its prefix.
 */
module KeywordTrie {
  import opened Options

  datatype Tree = Tree(
    prefix: string, value: Option<string>, kids: seq<Tree>,
    fullPrefix: string, selfWeight: real, weight: real)

  type Table = seq<(string, string)>

  function Leaf(prefix: string): Tree {
    Tree(prefix, None, [], "", 0.0, 0.0)
  }

  /** Dictionary look-up: the first child stored under the key, or |kids|. */
  function IndexOf(kids: seq<Tree>, key: string): (i: nat)
    ensures i <= |kids|
    ensures i < |kids| ==> kids[i].prefix == key
    ensures forall j :: 0 <= j < i ==> kids[j].prefix != key
  {
    if kids == [] then 0
    else if kids[0].prefix == key then 0
    else 1 + IndexOf(kids[1..], key)
  }

  /** Dictionary assignment `keys[t.prefix] = t`: an equal key is overwritten in place. */
  function DictPut(kids: seq<Tree>, t: Tree): seq<Tree> {
    var i := IndexOf(kids, t.prefix);
    if i < |kids| then kids[i := t] else kids + [t]
  }

  function Insert(t: Tree, key: string, token: string): Tree
    decreases |key|
  {
    if key == "" then t.(value := Some(token))
    else
      var i := IndexOf(t.kids, key[..1]);
      if i < |t.kids| then t.(kids := t.kids[i := Insert(t.kids[i], key[1..], token)])
      else t.(kids := t.kids + [Insert(Leaf(key[..1]), key[1..], token)])
  }

  lemma CoalesceNone()
    ensures CoalesceAll([]) == []
  {
  }

  /** The node `coalesce` returns; the node it leaves behind is CoalesceKids. */
  function Coalesce(t: Tree): Tree
    decreases t, 1
  {
    var u := CoalesceKids(t);
    if u.value.Some? || |u.kids| != 1 then u else Merge(u)
  }

  function CoalesceKids(t: Tree): Tree
    decreases t, 0
  {
    t.(kids := CoalesceAll(t.kids))
  }

  function CoalesceAll(kids: seq<Tree>): seq<Tree>
    decreases kids
  {
    if kids == [] then []
    else DictPut(CoalesceAll(kids[..|kids| - 1]), Coalesce(kids[|kids| - 1]))
  }

  function Merge(u: Tree): Tree
    requires |u.kids| == 1
  {
    var c := u.kids[0];
    Leaf(u.prefix + c.prefix).(value := c.value, kids := c.kids)
  }

  /** The node returned for the root is dropped, so the root is never merged. */
  function Build(table: Table): Tree {
    if table == [] then Leaf("")
    else var n := |table| - 1; Insert(Build(table[..n]), table[n].0, table[n].1)
  }

  function BuildCoalesced(table: Table): Tree {
    CoalesceKids(Build(table))
  }

  /** What a list of (keyword, token) lines means: the last line of a keyword wins. */
  function Meaning(table: Table): map<string, string> {
    if table == [] then map[]
    else var n := |table| - 1; Meaning(table[..n])[table[n].0 := table[n].1]
  }

  // ---- What a trie means -------------------------------------------------

  /** The child whose prefix starts s, or |kids|. */
  function ChildFor(kids: seq<Tree>, s: string): (i: nat)
    ensures i <= |kids|
    ensures i < |kids| ==> kids[i].prefix <= s
    ensures forall j :: 0 <= j < i ==> !(kids[j].prefix <= s)
  {
    if kids == [] then 0
    else if kids[0].prefix <= s then 0
    else 1 + ChildFor(kids[1..], s)
  }

  /** The token stored below t under the remaining characters s. */
  function Find(t: Tree, s: string): Option<string>
    decreases t
  {
    if s == "" then t.value
    else
      var i := ChildFor(t.kids, s);
      if i == |t.kids| then None
      else Find(t.kids[i], s[|t.kids[i].prefix|..])
  }

  /** As Find, but s still starts with t's own prefix. */
  function FindFrom(t: Tree, s: string): Option<string> {
    if t.prefix <= s then Find(t, s[|t.prefix|..]) else None
  }

  ghost predicate Distinct(kids: seq<Tree>) {
    && (forall i :: 0 <= i < |kids| ==> kids[i].prefix != "")
    && (forall i, j :: 0 <= i < j < |kids| ==> kids[i].prefix[0] != kids[j].prefix[0])
  }

  /** Siblings have non-empty prefixes with pairwise distinct first characters, everywhere. */
  ghost predicate Radix(t: Tree) {
    Distinct(t.kids) && forall i :: 0 <= i < |t.kids| ==> Radix(t.kids[i])
  }

  /** No node below t is a dead end. */
  ghost predicate Live(t: Tree) {
    forall i :: 0 <= i < |t.kids| ==>
      (t.kids[i].value.Some? || t.kids[i].kids != []) && Live(t.kids[i])
  }

  /** Every node below t has a value or at least two children. */
  ghost predicate Compact(t: Tree) {
    forall i :: 0 <= i < |t.kids| ==>
      (t.kids[i].value.Some? || |t.kids[i].kids| >= 2) && Compact(t.kids[i])
  }

  /** Before coalescing, every node below t holds one character. */
  ghost predicate OneChar(t: Tree) {
    forall i :: 0 <= i < |t.kids| ==> |t.kids[i].prefix| == 1 && OneChar(t.kids[i])
  }

  lemma PrefixSplits(a: string, b: string, k: string)
    ensures a + b <= k <==> a <= k && b <= k[|a|..]
    ensures a + b <= k ==> k[|a|..][|b|..] == k[|a + b|..]
  {
    if a <= k && b <= k[|a|..] { assert k == a + (b + k[|a|..][|b|..]); }
    if a + b <= k { assert k[|a|..] == b + k[|a + b|..]; }
  }

  lemma SameTail(s: string, k: string)
    requires s != "" && k != "" && s[0] == k[0]
    ensures s == k <==> s[1..] == k[1..]
  {
    assert s == s[..1] + s[1..] && k == k[..1] + k[1..];
  }

  lemma ChildIs(kids: seq<Tree>, s: string, j: nat)
    requires Distinct(kids) && j < |kids| && kids[j].prefix <= s
    ensures ChildFor(kids, s) == j
  {
    var i := ChildFor(kids, s);
    assert i <= j && kids[i].prefix[0] == s[0] == kids[j].prefix[0];
  }

  // ---- insert --------------------------------------------------------------

  lemma AddKeepsDistinct(kids: seq<Tree>, c: Tree)
    requires Distinct(kids) && |c.prefix| == 1
    requires forall j :: 0 <= j < |kids| ==> |kids[j].prefix| == 1 && kids[j].prefix != c.prefix
    ensures Distinct(kids + [c])
  {
    forall j | 0 <= j < |kids| ensures kids[j].prefix[0] != c.prefix[0] {
      assert kids[j].prefix == [kids[j].prefix[0]] && c.prefix == [c.prefix[0]];
    }
  }

  lemma ReplaceKeepsDistinct(kids: seq<Tree>, i: nat, c: Tree)
    requires Distinct(kids) && i < |kids| && c.prefix == kids[i].prefix
    ensures Distinct(kids[i := c])
  {
    assert forall j :: 0 <= j < |kids| ==> kids[i := c][j].prefix == kids[j].prefix;
  }

  /** A child as insert leaves it. */
  ghost predicate Grown(c: Tree) {
    |c.prefix| == 1 && Radix(c) && Live(c) && OneChar(c) && (c.value.Some? || c.kids != [])
  }

  lemma GrownKids(t: Tree)
    ensures Radix(t) && Live(t) && OneChar(t) <==>
      Distinct(t.kids) && forall k :: 0 <= k < |t.kids| ==> Grown(t.kids[k])
  {
  }

  /** One child, replaced or added. */
  lemma PutChildKeepsShape(t: Tree, u: Tree, c: Tree, i: nat)
    requires Radix(t) && Live(t) && OneChar(t) && i == IndexOf(t.kids, c.prefix) && Grown(c)
    requires u.kids == if i < |t.kids| then t.kids[i := c] else t.kids + [c]
    ensures Radix(u) && Live(u) && OneChar(u)
  {
    GrownKids(t);
    GrownKids(u);
    hide Radix, Live, OneChar, IndexOf, Distinct;
    if i < |t.kids| { ReplaceKeepsDistinct(t.kids, i, c); } else { AddKeepsDistinct(t.kids, c); }
    forall k | 0 <= k < |u.kids| ensures Grown(u.kids[k]) {
      assert u.kids[k] == if k == i then c else t.kids[k];
    }
  }

  lemma {:induction false} InsertKeepsShape(t: Tree, key: string, token: string)
    requires Radix(t) && Live(t) && OneChar(t)
    ensures var u := Insert(t, key, token);
      && Radix(u) && Live(u) && OneChar(u) && u.prefix == t.prefix
      && (u.value.Some? || u.kids != [])
    decreases |key|
  {
    if key != "" {
      var i := IndexOf(t.kids, key[..1]);
      var was := if i < |t.kids| then t.kids[i] else Leaf(key[..1]);
      assert was.prefix == key[..1];
      InsertKeepsShape(was, key[1..], token);
      hide Radix, Live, OneChar;
      PutChildKeepsShape(t, Insert(t, key, token), Insert(was, key[1..], token), i);
    }
  }

  /** What Find does with a non-empty s when a child sits under s's first character. */
  lemma FindAtChild(t: Tree, s: string, i: nat)
    requires Distinct(t.kids) && s != "" && i < |t.kids| && t.kids[i].prefix == s[..1]
    ensures Find(t, s) == Find(t.kids[i], s[1..])
  {
    ChildIs(t.kids, s, i);
  }

  /** Inserting under one first character leaves the other characters' children alone. */
  lemma InsertElsewhere(t: Tree, key: string, token: string, s: string)
    requires Radix(t) && Live(t) && OneChar(t)
    requires key != "" && s != "" && s[0] != key[0]
    ensures Find(Insert(t, key, token), s) == Find(t, s)
  {
    InsertKeepsShape(t, key, token);
    var u := Insert(t, key, token);
    var j := ChildFor(t.kids, s);
    if j < |t.kids| {
      assert t.kids[j].prefix == s[..1];
      assert u.kids[j] == t.kids[j];
      FindAtChild(u, s, j);
      FindAtChild(t, s, j);
    } else {
      forall k | 0 <= k < |u.kids| ensures !(u.kids[k].prefix <= s) {
        if k != IndexOf(t.kids, key[..1]) { assert u.kids[k] == t.kids[k]; }
      }
    }
  }

  lemma {:induction false} InsertFinds(t: Tree, key: string, token: string, s: string)
    requires Radix(t) && Live(t) && OneChar(t)
    ensures Find(Insert(t, key, token), s) == if s == key then Some(token) else Find(t, s)
    decreases |key|
  {
    if key == "" {
      if s != "" { FindOfSameKids(Insert(t, key, token), t, s); }
    } else if s != "" {
      if s[0] != key[0] {
        InsertElsewhere(t, key, token, s);
      } else {
        var i := IndexOf(t.kids, key[..1]);
        var was := if i < |t.kids| then t.kids[i] else Leaf(key[..1]);
        SameTail(s, key);
        InsertKeepsShape(t, key, token);
        FindAtChild(Insert(t, key, token), s, i);
        InsertFinds(was, key[1..], token, s[1..]);
        FindsOld(t, key, s);
      }
    }
  }

  lemma FindsOld(t: Tree, key: string, s: string)
    requires Radix(t) && OneChar(t) && key != "" && s != "" && s[0] == key[0]
    ensures var i := IndexOf(t.kids, key[..1]);
      Find(t, s) == Find(if i < |t.kids| then t.kids[i] else Leaf(key[..1]), s[1..])
  {
    var i := IndexOf(t.kids, key[..1]);
    if i < |t.kids| {
      FindAtChild(t, s, i);
    } else {
      forall k | 0 <= k < |t.kids| ensures !(t.kids[k].prefix <= s) {}
    }
  }

  lemma {:induction false} BuildMeans(table: Table, s: string)
    ensures var t := Build(table); Radix(t) && Live(t) && OneChar(t) && t.prefix == ""
    ensures Find(Build(table), s) ==
      if s in Meaning(table) then Some(Meaning(table)[s]) else None
  {
    if table != [] {
      var n := |table| - 1;
      BuildMeans(table[..n], s);
      InsertKeepsShape(Build(table[..n]), table[n].0, table[n].1);
      InsertFinds(Build(table[..n]), table[n].0, table[n].1, s);
    }
  }

  // ---- coalesce ------------------------------------------------------------

  lemma CoalescePrefix(t: Tree)
    ensures t.prefix <= Coalesce(t).prefix
  {
    var u := CoalesceKids(t);
    assert u.prefix == t.prefix;
    if u.value == None && |u.kids| == 1 { assert Merge(u).prefix == t.prefix + u.kids[0].prefix; }
  }

  lemma DictPutNew(kids: seq<Tree>, t: Tree)
    requires Distinct(kids) && t.prefix != "" && forall i :: 0 <= i < |kids| ==> kids[i].prefix[0] != t.prefix[0]
    ensures DictPut(kids, t) == kids + [t] && Distinct(kids + [t])
  {
    hide IndexOf;
  }

  /** Coalesced siblings keep their distinct first characters. */
  lemma CoalescedDiffer(kids: seq<Tree>, i: nat, j: nat)
    requires Distinct(kids) && i < j < |kids|
    ensures kids[i].prefix <= Coalesce(kids[i]).prefix && kids[j].prefix <= Coalesce(kids[j]).prefix
    ensures Coalesce(kids[i]).prefix[0] != Coalesce(kids[j]).prefix[0]
  {
    CoalescePrefix(kids[i]);
    CoalescePrefix(kids[j]);
    assert Coalesce(kids[i]).prefix[0] == kids[i].prefix[0] && Coalesce(kids[j]).prefix[0] == kids[j].prefix[0];
  }

  lemma CoalescedNonEmpty(kids: seq<Tree>, i: nat)
    requires Distinct(kids) && i < |kids|
    ensures Coalesce(kids[i]).prefix != ""
  {
    CoalescePrefix(kids[i]);
  }

  lemma CoalesceAllSnoc(kids: seq<Tree>, n: nat)
    requires 0 < n <= |kids|
    ensures CoalesceAll(kids[..n]) == DictPut(CoalesceAll(kids[..n - 1]), Coalesce(kids[n - 1]))
  {
    assert kids[..n][..n - 1] == kids[..n - 1];
  }

  /** done holds the first n children, coalesced, in order. */
  ghost predicate Coalesced(done: seq<Tree>, kids: seq<Tree>, n: nat) {
    |done| == n <= |kids| && Distinct(done) && forall i :: 0 <= i < n ==> done[i] == Coalesce(kids[i])
  }

  lemma CoalescedNext(done: seq<Tree>, kids: seq<Tree>, n: nat)
    requires Distinct(kids) && n < |kids| && Coalesced(done, kids, n)
    ensures DictPut(done, Coalesce(kids[n])) == done + [Coalesce(kids[n])]
    ensures Distinct(done + [Coalesce(kids[n])])
  {
    hide Coalesce;
    CoalescedNonEmpty(kids, n);
    forall i | 0 <= i < n ensures done[i].prefix[0] != Coalesce(kids[n]).prefix[0] { CoalescedDiffer(kids, i, n); }
    DictPutNew(done, Coalesce(kids[n]));
  }

  lemma CoalescedSnoc(done: seq<Tree>, kids: seq<Tree>, n: nat)
    requires n < |kids| && Coalesced(done, kids, n) && Distinct(done + [Coalesce(kids[n])])
    ensures Coalesced(done + [Coalesce(kids[n])], kids, n + 1)
  {
    hide Coalesce, Distinct;
  }

  lemma {:induction false} CoalesceFirst(kids: seq<Tree>, n: nat)
    requires Distinct(kids) && n <= |kids|
    ensures Coalesced(CoalesceAll(kids[..n]), kids, n)
    decreases n
  {
    if n > 0 {
      hide *;
      CoalesceFirst(kids, n - 1);
      CoalescedNext(CoalesceAll(kids[..n - 1]), kids, n - 1);
      CoalescedSnoc(CoalesceAll(kids[..n - 1]), kids, n - 1);
      CoalesceAllSnoc(kids, n);
    }
  }

  /** No sibling is lost: the rebuilt dictionary holds every coalesced child, in order. */
  lemma CoalesceAllIsPointwise(kids: seq<Tree>)
    requires Distinct(kids)
    ensures |CoalesceAll(kids)| == |kids|
    ensures forall i :: 0 <= i < |kids| ==> CoalesceAll(kids)[i] == Coalesce(kids[i])
    ensures forall i :: 0 <= i < |kids| ==> kids[i].prefix <= Coalesce(kids[i]).prefix
    ensures Distinct(CoalesceAll(kids))
  {
    hide Coalesce, CoalesceAll;
    CoalesceFirst(kids, |kids|);
    assert kids[..|kids|] == kids;
    forall i | 0 <= i < |kids| ensures kids[i].prefix <= Coalesce(kids[i]).prefix { CoalescePrefix(kids[i]); }
  }

  lemma {:induction false} CoalesceKeepsShape(t: Tree)
    requires Radix(t) && Live(t)
    ensures var u := CoalesceKids(t); Radix(u) && Compact(u) && |u.kids| == |t.kids|
    ensures var u := Coalesce(t);
      && Radix(u) && Compact(u)
      && (t.value.Some? || t.kids != [] ==> u.value.Some? || |u.kids| >= 2)
  {
    CoalesceAllIsPointwise(t.kids);
    forall i | 0 <= i < |t.kids|
      ensures var u := Coalesce(t.kids[i]);
        Radix(u) && Compact(u) && (u.value.Some? || |u.kids| >= 2)
    {
      CoalesceKeepsShape(t.kids[i]);
    }
  }

  lemma {:induction false} CoalesceKeepsTable(t: Tree, s: string)
    requires Radix(t) && Live(t)
    ensures Find(CoalesceKids(t), s) == Find(t, s)
    ensures FindFrom(Coalesce(t), t.prefix + s) == Find(t, s)
    decreases t
  {
    hide Coalesce, CoalesceKids;
    CoalesceKeepsValue(t);
    if s != "" {
      var i := ChildFor(t.kids, s);
      if i < |t.kids| {
        var p := t.kids[i].prefix;
        CoalesceKeepsTable(t.kids[i], s[|p|..]);
        assert p + s[|p|..] == s;
        KidKeepsTable(t, s, i);
      } else {
        NoKidStarts(t, s);
      }
    }
    MergingKeepsTable(t, s);
  }

  lemma CoalesceKeepsValue(t: Tree)
    ensures CoalesceKids(t).value == t.value
  {
  }

  lemma KidKeepsTable(t: Tree, s: string, i: nat)
    requires Radix(t) && s != "" && i < |t.kids| && t.kids[i].prefix <= s && i == ChildFor(t.kids, s)
    requires FindFrom(Coalesce(t.kids[i]), s) == Find(t.kids[i], s[|t.kids[i].prefix|..])
    ensures Find(CoalesceKids(t), s) == Find(t, s)
  {
    hide Coalesce, CoalesceAll;
    var u := CoalesceKids(t);
    CoalesceAllIsPointwise(t.kids);
    assert u.kids[i] == Coalesce(t.kids[i]) && u.kids[i].prefix[0] == t.kids[i].prefix[0] == s[0];
    ChildOrNone(u.kids, s, i);
    assert Find(t, s) == Find(t.kids[i], s[|t.kids[i].prefix|..]);
    assert Find(u, s) == FindFrom(u.kids[i], s);
  }

  lemma NoKidStarts(t: Tree, s: string)
    requires Radix(t) && s != "" && ChildFor(t.kids, s) == |t.kids|
    ensures Find(CoalesceKids(t), s) == Find(t, s)
  {
    hide Coalesce, CoalesceAll;
    var u := CoalesceKids(t);
    CoalesceAllIsPointwise(t.kids);
    forall k | 0 <= k < |u.kids| ensures !(u.kids[k].prefix <= s) {
      assert t.kids[k].prefix <= u.kids[k].prefix;
    }
    assert ChildFor(u.kids, s) == |u.kids|;
    assert Find(u, s) == None;
  }

  lemma MergingKeepsTable(t: Tree, s: string)
    requires Radix(t) && Live(t)
    ensures FindFrom(Coalesce(t), t.prefix + s) == Find(CoalesceKids(t), s)
  {
    var u := CoalesceKids(t);
    CoalesceKeepsShape(t);
    assert (t.prefix + s)[|t.prefix|..] == s;
    if u.value == None && |u.kids| == 1 { MergeKeepsTable(u, s); }
  }

  /** When only child i can start s, Find descends into it or fails there. */
  lemma ChildOrNone(kids: seq<Tree>, s: string, i: nat)
    requires Distinct(kids) && i < |kids| && s != "" && kids[i].prefix[0] == s[0]
    ensures ChildFor(kids, s) == if kids[i].prefix <= s then i else |kids|
  {
    var k := ChildFor(kids, s);
    if k < |kids| { assert kids[k].prefix[0] == s[0]; }
  }

  lemma MergeKeepsTable(u: Tree, s: string)
    requires Radix(u) && |u.kids| == 1 && u.value == None
    ensures FindFrom(Merge(u), u.prefix + s) == Find(u, s)
  {
    var c := u.kids[0];
    var m := Merge(u);
    PrefixSplits(u.prefix, c.prefix, u.prefix + s);
    assert (u.prefix + s)[|u.prefix|..] == s;
    if c.prefix <= s {
      FindOfSameKids(m, c, s[|c.prefix|..]);
      ChildIs(u.kids, s, 0);
    }
  }

  lemma FindOfSameKids(a: Tree, b: Tree, s: string)
    requires a.kids == b.kids && (s == "" ==> a.value == b.value)
    ensures Find(a, s) == Find(b, s)
  {
  }

  /** coalesce keeps the table, loses no sibling and leaves a compact radix tree under the unmerged root. */
  lemma CoalescedTable(table: Table, s: string)
    ensures var t := BuildCoalesced(table); Radix(t) && Compact(t) && t.prefix == ""
    ensures |BuildCoalesced(table).kids| == |Build(table).kids|
    ensures Find(BuildCoalesced(table), s) ==
      if s in Meaning(table) then Some(Meaning(table)[s]) else None
  {
    BuildMeans(table, s);
    CoalesceKeepsShape(Build(table));
    CoalesceKeepsTable(Build(table), s);
  }
}
