/**
 `fillOut` of KeywordLookupGenerator.py: full prefixes, weights, and the stable
 sort of siblings by weight. Weights are exact rationals.
 */
module KeywordWeights {
  import opened Options
  import opened KeywordTrie
  import opened KeywordNodes

  type WeightList = seq<(string, real)>

  const KEYWORD_WEIGHTS: WeightList := [
    ("catch", 0.01), ("try", 0.01), ("while", 0.01), ("case", 0.01), ("break", 0.01),
    ("new", 0.01), ("in", 0.01), ("typeof", 0.02), ("true", 0.02), ("false", 0.02),
    ("for", 0.03), ("null", 0.03), ("else", 0.03), ("return", 0.13), ("var", 0.13),
    ("if", 0.16), ("function", 0.18), ("this", 0.18)]

  function WeightOf(ws: WeightList, s: string): real {
    if ws == [] then 0.0
    else if ws[0].0 == s then ws[0].1
    else WeightOf(ws[1..], s)
  }

  function Weights(kids: seq<Tree>): (r: seq<real>)
    ensures |r| == |kids| && forall i :: 0 <= i < |kids| ==> r[i] == kids[i].weight
  {
    if kids == [] then [] else [kids[0].weight] + Weights(kids[1..])
  }

  function Sum(xs: seq<real>): real {
    if xs == [] then 0.0 else Sum(xs[..|xs| - 1]) + xs[|xs| - 1]
  }

  // ---- sorted(..., key=weight, reverse=True) ---------------------------------

  predicate Below(order: seq<nat>, n: nat) {
    forall i :: 0 <= i < |order| ==> order[i] < n
  }

  /** The positions of ws in the order Python's stable descending sort puts them. */
  function Order(ws: seq<real>, n: nat): (r: seq<nat>)
    requires n <= |ws|
    ensures Below(r, n)
  {
    if n == 0 then [] else Place(ws, Order(ws, n - 1), n - 1)
  }

  /** Insertion behind every element that weighs at least as much. */
  function Place(ws: seq<real>, order: seq<nat>, x: nat): (r: seq<nat>)
    requires x < |ws| && Below(order, x)
    ensures Below(r, x + 1)
  {
    if order == [] then [x]
    else if ws[order[0]] < ws[x] then [x] + order
    else [order[0]] + Place(ws, order[1..], x)
  }

  ghost predicate Permutes(order: seq<nat>, n: nat) {
    && |order| == n && Below(order, n)
    && (forall i, j :: 0 <= i < j < n ==> order[i] != order[j])
    && (forall k: nat :: k < n ==> k in order)
  }

  /** Position a comes before b in a stable descending sort. */
  predicate Precedes(ws: seq<real>, a: nat, b: nat)
    requires a < |ws| && b < |ws|
  {
    ws[a] > ws[b] || (ws[a] == ws[b] && a < b)
  }

  ghost predicate StableDescending(ws: seq<real>, order: seq<nat>) {
    && Below(order, |ws|)
    && forall i, j :: 0 <= i < j < |order| ==> Precedes(ws, order[i], order[j])
  }

  function Apply<T>(order: seq<nat>, xs: seq<T>): (r: seq<T>)
    requires Below(order, |xs|)
    ensures |r| == |order| && forall i :: 0 <= i < |order| ==> r[i] == xs[order[i]]
  {
    seq(|order|, i requires 0 <= i < |order| => xs[order[i]])
  }

  lemma {:induction false} PlaceKeepsOrder(ws: seq<real>, order: seq<nat>, x: nat)
    requires x < |ws| && Below(order, x) && StableDescending(ws, order)
    ensures var r := Place(ws, order, x);
      && StableDescending(ws, r) && |r| == |order| + 1
      && x in r && (forall k :: k in order ==> k in r) && (forall k :: k in r ==> k == x || k in order)
  {
    if order != [] && ws[order[0]] >= ws[x] {
      PlaceKeepsOrder(ws, order[1..], x);
      var rest := Place(ws, order[1..], x);
      forall j | 0 <= j < |rest| ensures Precedes(ws, order[0], rest[j]) {
        assert rest[j] in rest;
      }
    }
  }

  /** The sort is a permutation, descending and stable. */
  lemma {:induction false} OrderSorts(ws: seq<real>, n: nat)
    requires n <= |ws|
    ensures Permutes(Order(ws, n), n) && StableDescending(ws, Order(ws, n))
  {
    if n > 0 {
      OrderSorts(ws, n - 1);
      PlaceKeepsOrder(ws, Order(ws, n - 1), n - 1);
      var r := Order(ws, n);
      forall i, j | 0 <= i < j < n ensures r[i] != r[j] { assert Precedes(ws, r[i], r[j]); }
      forall k: nat | k < n ensures k in r { assert k == n - 1 || k in Order(ws, n - 1); }
    }
  }

  // ---- fillOut -----------------------------------------------------------------

  function FillOut(ws: WeightList, t: Tree, prefix: string): Tree
    decreases t
  {
    var full := prefix + t.prefix;
    var kids := FillAll(ws, t.kids, full);
    var self := WeightOf(ws, full);
    t.(fullPrefix := full, selfWeight := self, weight := self + Sum(Weights(kids)), kids := SortKids(kids))
  }

  function FillAll(ws: WeightList, kids: seq<Tree>, full: string): (r: seq<Tree>)
    ensures |r| == |kids|
    decreases kids
  {
    if kids == [] then []
    else FillAll(ws, kids[..|kids| - 1], full) + [FillOut(ws, kids[|kids| - 1], full)]
  }

  function SortKids(kids: seq<Tree>): seq<Tree> {
    OrderSorts(Weights(kids), |kids|);
    Apply(Order(Weights(kids), |kids|), kids)
  }

  lemma {:induction false} FillAllIsPointwise(ws: WeightList, kids: seq<Tree>, full: string)
    ensures forall i :: 0 <= i < |kids| ==> FillAll(ws, kids, full)[i] == FillOut(ws, kids[i], full)
  {
    if kids != [] { FillAllIsPointwise(ws, kids[..|kids| - 1], full); }
  }

  /** Siblings are in non-increasing weight order, everywhere. */
  ghost predicate Sorted(t: Tree) {
    && (forall i, j :: 0 <= i < j < |t.kids| ==> t.kids[i].weight >= t.kids[j].weight)
    && forall i :: 0 <= i < |t.kids| ==> Sorted(t.kids[i])
  }

  /** Full prefixes are what fillOut makes them: everywhere below t, and at t itself. */
  ghost predicate FilledBelow(t: Tree) {
    forall i :: 0 <= i < |t.kids| ==>
      t.kids[i].fullPrefix == t.fullPrefix + t.kids[i].prefix && FilledBelow(t.kids[i])
  }

  ghost predicate Filled(t: Tree, prefix: string) {
    t.fullPrefix == prefix + t.prefix && FilledBelow(t)
  }

  /** u is t with the siblings of every node in some other order. */
  ghost predicate Reordered(t: Tree, u: Tree)
    decreases t
  {
    && t.prefix == u.prefix && t.value == u.value && |t.kids| == |u.kids|
    && (exists order :: Permutes(order, |t.kids|) &&
          forall i :: 0 <= i < |t.kids| ==> Reordered(t.kids[order[i]], u.kids[i]))
  }

  lemma {:induction false} FillOutReorders(ws: WeightList, t: Tree, prefix: string)
    ensures var u := FillOut(ws, t, prefix); Reordered(t, u) && Filled(u, prefix) && Sorted(u)
  {
    hide WeightOf, Sum, FillAll, Order;
    var full := prefix + t.prefix;
    var kids := FillAll(ws, t.kids, full);
    var order := Order(Weights(kids), |kids|);
    var u := FillOut(ws, t, prefix);
    FillAllIsPointwise(ws, t.kids, full);
    OrderSorts(Weights(kids), |kids|);
    forall i | 0 <= i < |t.kids|
      ensures Reordered(t.kids[order[i]], u.kids[i]) && Filled(u.kids[i], full) && Sorted(u.kids[i])
    {
      FillOutReorders(ws, t.kids[order[i]], full);
    }
    assert Permutes(order, |t.kids|);
    forall i, j | 0 <= i < j < |u.kids| ensures u.kids[i].weight >= u.kids[j].weight {
      assert Precedes(Weights(kids), order[i], order[j]);
    }
  }

  /** The children are the filled ones, in descending order of weight, those of equal weight in the order they had. */
  ghost predicate StablySorted(ws: WeightList, kids: seq<Tree>, full: string, sorted: seq<Tree>, order: seq<nat>) {
    && Permutes(order, |kids|) && |sorted| == |kids|
    && (forall i :: 0 <= i < |kids| ==> sorted[i] == FillOut(ws, kids[order[i]], full))
    && forall i, j :: 0 <= i < j < |kids| ==>
         sorted[i].weight > sorted[j].weight || (sorted[i].weight == sorted[j].weight && order[i] < order[j])
  }

  /** What fillOut makes of a node: its own weight is the one listed for its full prefix. */
  lemma FillOutIsStable(ws: WeightList, t: Tree, prefix: string)
    ensures var u := FillOut(ws, t, prefix);
      && u.prefix == t.prefix && u.value == t.value && u.fullPrefix == prefix + t.prefix
      && u.selfWeight == WeightOf(ws, prefix + t.prefix)
      && exists order :: StablySorted(ws, t.kids, prefix + t.prefix, u.kids, order)
  {
    var full := prefix + t.prefix;
    var kids := FillAll(ws, t.kids, full);
    var order := Order(Weights(kids), |kids|);
    FillAllIsPointwise(ws, t.kids, full);
    OrderSorts(Weights(kids), |kids|);
    SortedKids(ws, t.kids, full, kids, order);
  }

  lemma SortedKids(ws: WeightList, kids: seq<Tree>, full: string, filled: seq<Tree>, order: seq<nat>)
    requires |filled| == |kids| && forall i :: 0 <= i < |kids| ==> filled[i] == FillOut(ws, kids[i], full)
    requires Permutes(order, |kids|) && StableDescending(Weights(filled), order)
    ensures StablySorted(ws, kids, full, Apply(order, filled), order)
  {
    hide FillOut;
    var sorted := Apply(order, filled);
    forall i, j | 0 <= i < j < |kids|
      ensures sorted[i].weight > sorted[j].weight || (sorted[i].weight == sorted[j].weight && order[i] < order[j])
    {
      assert Precedes(Weights(filled), order[i], order[j]);
    }
  }

  lemma PositionOf(order: seq<nat>, n: nat, k: nat) returns (i: nat)
    requires Permutes(order, n) && k < n
    ensures i < n && order[i] == k
  {
    assert k in order;
    i :| i < n && order[i] == k;
  }

  lemma {:induction false} ReorderingKeepsShape(t: Tree, u: Tree)
    requires Reordered(t, u) && Radix(t)
    ensures Radix(u) && (Compact(t) ==> Compact(u))
    decreases t
  {
    var order :| Permutes(order, |t.kids|) &&
      forall i :: 0 <= i < |t.kids| ==> Reordered(t.kids[order[i]], u.kids[i]);
    forall i | 0 <= i < |u.kids|
      ensures Radix(u.kids[i]) && u.kids[i].prefix == t.kids[order[i]].prefix
      ensures Compact(t) ==> (u.kids[i].value.Some? || |u.kids[i].kids| >= 2) && Compact(u.kids[i])
    {
      ReorderingKeepsShape(t.kids[order[i]], u.kids[i]);
    }
    forall i, j | 0 <= i < j < |u.kids| ensures u.kids[i].prefix[0] != u.kids[j].prefix[0] {
      assert order[i] < order[j] || order[j] < order[i];
    }
  }

  /** The order of siblings does not change the table. */
  lemma {:induction false} ReorderingKeepsTable(t: Tree, u: Tree, s: string)
    requires Reordered(t, u) && Radix(t)
    ensures Find(u, s) == Find(t, s)
    decreases t
  {
    var order :| Permutes(order, |t.kids|) &&
      forall i :: 0 <= i < |t.kids| ==> Reordered(t.kids[order[i]], u.kids[i]);
    if s != "" {
      ReorderingKeepsShape(t, u);
      var j := ChildFor(t.kids, s);
      if j < |t.kids| {
        var i := PositionOf(order, |t.kids|, j);
        ChildIs(u.kids, s, i);
        ReorderingKeepsTable(t.kids[j], u.kids[i], s[|t.kids[j].prefix|..]);
      } else {
        forall i | 0 <= i < |u.kids| ensures !(u.kids[i].prefix <= s) {
          assert t.kids[order[i]].prefix == u.kids[i].prefix;
        }
      }
    }
  }

  // ---- conservation of weight ----------------------------------------------------

  /** The weight listed for every node's full prefix, added up. */
  function NodeSum(ws: WeightList, t: Tree, prefix: string): real
    decreases t, 1
  {
    WeightOf(ws, prefix + t.prefix) + KidsSum(ws, t.kids, prefix + t.prefix)
  }

  function KidsSum(ws: WeightList, kids: seq<Tree>, full: string): real
    decreases kids, 0
  {
    if kids == [] then 0.0
    else KidsSum(ws, kids[..|kids| - 1], full) + NodeSum(ws, kids[|kids| - 1], full)
  }

  lemma {:induction false} FillOutAddsNodes(ws: WeightList, t: Tree, prefix: string)
    ensures FillOut(ws, t, prefix).weight == NodeSum(ws, t, prefix)
    decreases t, 1
  {
    FillAllAddsNodes(ws, t.kids, prefix + t.prefix);
  }

  lemma {:induction false} FillAllAddsNodes(ws: WeightList, kids: seq<Tree>, full: string)
    ensures Sum(Weights(FillAll(ws, kids, full))) == KidsSum(ws, kids, full)
    decreases kids, 0
  {
    hide FillOut, NodeSum;
    if kids != [] {
      var n := |kids| - 1;
      FillAllAddsNodes(ws, kids[..n], full);
      FillOutAddsNodes(ws, kids[n], full);
      assert Weights(FillAll(ws, kids, full))[..n] == Weights(FillAll(ws, kids[..n], full));
    }
  }

  predicate NodeAt(t: Tree, prefix: string, k: string) {
    var full := prefix + t.prefix;
    full <= k && HasNode(t, k[|full|..])
  }

  lemma {:induction false} OneEntry(k: string, w: real, t: Tree, prefix: string)
    requires Radix(t)
    ensures NodeSum([(k, w)], t, prefix) == if NodeAt(t, prefix, k) then w else 0.0
    decreases t, |t.kids| + 1
  {
    var full := prefix + t.prefix;
    OneEntryKids(k, w, t, full, |t.kids|);
    assert t.kids[..|t.kids|] == t.kids;
    assert WeightOf([(k, w)], full) == if k == full then w else 0.0;
    if full == k {
      assert k[|full|..] == "";
    } else if full <= k {
      NodeAtChild(t, prefix, k);
    }
  }

  lemma NodeAtChild(t: Tree, prefix: string, k: string)
    requires prefix + t.prefix <= k && prefix + t.prefix != k
    ensures var full := prefix + t.prefix;
      var i := ChildFor(t.kids, k[|full|..]);
      NodeAt(t, prefix, k) == (i < |t.kids| && NodeAt(t.kids[i], full, k))
  {
    var full := prefix + t.prefix;
    var i := ChildFor(t.kids, k[|full|..]);
    assert k == full + k[|full|..];
    if i < |t.kids| { PrefixSplits(full, t.kids[i].prefix, k); }
  }

  lemma {:induction false} OneEntryKids(k: string, w: real, t: Tree, full: string, n: nat)
    requires Radix(t) && n <= |t.kids|
    ensures KidsSum([(k, w)], t.kids[..n], full) ==
      if full <= k && full != k && ChildFor(t.kids, k[|full|..]) < n
        && NodeAt(t.kids[ChildFor(t.kids, k[|full|..])], full, k) then w else 0.0
    decreases t, n
  {
    if n > 0 {
      OneEntryKids(k, w, t, full, n - 1);
      assert t.kids[..n][..n - 1] == t.kids[..n - 1];
      OneEntry(k, w, t.kids[n - 1], full);
      if NodeAt(t.kids[n - 1], full, k) { NodeIsBelow(t.kids, full, k, n - 1); }
    }
  }

  lemma NodeIsBelow(kids: seq<Tree>, full: string, k: string, i: nat)
    requires Distinct(kids) && i < |kids| && NodeAt(kids[i], full, k)
    ensures full <= k && full != k && ChildFor(kids, k[|full|..]) == i
  {
    PrefixSplits(full, kids[i].prefix, k);
    ChildIs(kids, k[|full|..], i);
  }

  ghost predicate DistinctKeys(ws: WeightList) {
    forall i, j :: 0 <= i < j < |ws| ==> ws[i].0 != ws[j].0
  }

  lemma {:induction false} WeightOfSplits(ws: WeightList, s: string)
    requires ws != [] && DistinctKeys(ws)
    ensures WeightOf(ws, s) == WeightOf(ws[..1], s) + WeightOf(ws[1..], s)
  {
    if ws[0].0 == s { UnlistedWeighsNothing(ws[1..], s); }
  }

  lemma {:induction false} UnlistedWeighsNothing(ws: WeightList, s: string)
    requires forall i :: 0 <= i < |ws| ==> ws[i].0 != s
    ensures WeightOf(ws, s) == 0.0
  {
    if ws != [] { UnlistedWeighsNothing(ws[1..], s); }
  }

  lemma {:induction false} NodeSumSplits(ws: WeightList, t: Tree, prefix: string)
    requires ws != [] && DistinctKeys(ws)
    ensures NodeSum(ws, t, prefix) == NodeSum(ws[..1], t, prefix) + NodeSum(ws[1..], t, prefix)
    decreases t, 1
  {
    WeightOfSplits(ws, prefix + t.prefix);
    KidsSumSplits(ws, t.kids, prefix + t.prefix);
  }

  lemma {:induction false} KidsSumSplits(ws: WeightList, kids: seq<Tree>, full: string)
    requires ws != [] && DistinctKeys(ws)
    ensures KidsSum(ws, kids, full) == KidsSum(ws[..1], kids, full) + KidsSum(ws[1..], kids, full)
    decreases kids, 0
  {
    if kids != [] {
      KidsSumSplits(ws, kids[..|kids| - 1], full);
      NodeSumSplits(ws, kids[|kids| - 1], full);
    }
  }

  /** The weights listed for strings at which t has a node. */
  function ListedNodes(ws: WeightList, t: Tree): real {
    if ws == [] then 0.0
    else (if NodeAt(t, "", ws[0].0) then ws[0].1 else 0.0) + ListedNodes(ws[1..], t)
  }

  /** The weights listed for keywords of the table. */
  function ListedKeywords(ws: WeightList, m: map<string, string>): real {
    if ws == [] then 0.0
    else (if ws[0].0 in m then ws[0].1 else 0.0) + ListedKeywords(ws[1..], m)
  }

  lemma {:induction false} NothingListed(t: Tree, prefix: string)
    ensures NodeSum([], t, prefix) == 0.0
    decreases t, |t.kids| + 1
  {
    NothingListedKids(t, prefix + t.prefix, |t.kids|);
    assert t.kids[..|t.kids|] == t.kids;
  }

  lemma {:induction false} NothingListedKids(t: Tree, full: string, n: nat)
    requires n <= |t.kids|
    ensures KidsSum([], t.kids[..n], full) == 0.0
    decreases t, n
  {
    if n > 0 {
      NothingListedKids(t, full, n - 1);
      assert t.kids[..n][..n - 1] == t.kids[..n - 1];
      NothingListed(t.kids[n - 1], full);
    }
  }

  lemma {:induction false} NodeSumIsListed(ws: WeightList, t: Tree)
    requires Radix(t) && DistinctKeys(ws)
    ensures NodeSum(ws, t, "") == ListedNodes(ws, t)
  {
    if ws == [] {
      NothingListed(t, "");
    } else {
      NodeSumSplits(ws, t, "");
      assert ws[..1] == [(ws[0].0, ws[0].1)];
      OneEntry(ws[0].0, ws[0].1, t, "");
      NodeSumIsListed(ws[1..], t);
    }
  }

  lemma {:induction false} NodesOutweighKeywords(ws: WeightList, t: Tree, m: map<string, string>)
    requires forall i :: 0 <= i < |ws| ==> ws[i].1 > 0.0
    requires forall k :: k in m ==> NodeAt(t, "", k)
    ensures ListedNodes(ws, t) >= ListedKeywords(ws, m)
    ensures ListedNodes(ws, t) == ListedKeywords(ws, m) <==>
      forall i :: 0 <= i < |ws| && NodeAt(t, "", ws[i].0) ==> ws[i].0 in m
  {
    if ws != [] {
      NodesOutweighKeywords(ws[1..], t, m);
      assert forall i :: 1 <= i < |ws| ==> ws[i] == ws[1..][i - 1];
    }
  }

  /** The coalesced trie has a node at the root, at keyword ends and where keywords branch. */
  lemma NodesOfTable(table: Table, s: string)
    ensures NodeAt(BuildCoalesced(table), "", s) <==> s == "" || Stops(Meaning(table), s)
  {
    var t := BuildCoalesced(table);
    CoalescedTable(table, s);
    forall r ensures Find(t, r) == if r in Meaning(table) then Some(Meaning(table)[r]) else None {
      CoalescedTable(table, r);
    }
    if s != "" { NodeIffStop(t, Meaning(table), s); }
    assert s[|""|..] == s;
  }

  /** s is listed without being a keyword, but gets a node: the root, or a place where keywords branch. */
  ghost predicate StrayNode(table: Table, s: string) {
    s !in Meaning(table) && (s == "" || Branches(Meaning(table), s))
  }

  lemma StrayNodes(ws: WeightList, table: Table)
    ensures (forall i :: 0 <= i < |ws| && NodeAt(BuildCoalesced(table), "", ws[i].0) ==> ws[i].0 in Meaning(table))
      <==> (forall i :: 0 <= i < |ws| ==> !StrayNode(table, ws[i].0))
  {
    forall i | 0 <= i < |ws|
      ensures NodeAt(BuildCoalesced(table), "", ws[i].0) && ws[i].0 !in Meaning(table) <==> StrayNode(table, ws[i].0)
    {
      NodesOfTable(table, ws[i].0);
    }
  }

  /**
   The root weighs as much as the listed keywords present exactly when no listed
   string that is not a keyword is empty or a place where keywords branch; it
   never weighs less.
   */
  lemma RootWeight(ws: WeightList, table: Table)
    requires DistinctKeys(ws) && forall i :: 0 <= i < |ws| ==> ws[i].1 > 0.0
    ensures var w, k := FillOut(ws, BuildCoalesced(table), "").weight, ListedKeywords(ws, Meaning(table));
      w >= k && (w == k <==> forall i :: 0 <= i < |ws| ==> !StrayNode(table, ws[i].0))
  {
    var t := BuildCoalesced(table);
    var m := Meaning(table);
    CoalescedTable(table, "");
    FillOutAddsNodes(ws, t, "");
    NodeSumIsListed(ws, t);
    forall k | k in m ensures NodeAt(t, "", k) { NodesOfTable(table, k); }
    NodesOutweighKeywords(ws, t, m);
    StrayNodes(ws, table);
  }

  /** The first n weights of the list added up. */
  function Total(ws: WeightList, n: nat): real
    requires n <= |ws|
    decreases n, |ws|
  {
    if n == 0 then 0.0 else Total(ws, n - 1) + ws[n - 1].1
  }

  lemma ListedWeightsStart()
    ensures |KEYWORD_WEIGHTS| == 18 && Total(KEYWORD_WEIGHTS, 11) == 0.16
  {
    assert Total(KEYWORD_WEIGHTS, 6) == 0.06;
  }

  /** The weights of all keywords together make one. */
  lemma ListedWeightsTotal()
    ensures |KEYWORD_WEIGHTS| == 18 && Total(KEYWORD_WEIGHTS, 18) == 1.0
  {
    ListedWeightsStart();
    assert Total(KEYWORD_WEIGHTS, 15) == 0.48;
  }

  lemma ListedWeightsArePositive()
    ensures forall i :: 0 <= i < |KEYWORD_WEIGHTS| ==> KEYWORD_WEIGHTS[i].1 > 0.0
  {
  }

  lemma ListedKeysDiffer(low: nat, high: nat)
    requires (low == 0 && high == 6) || (low == 6 && high == 12) || (low == 12 && high == 18)
    ensures forall i, j :: low <= i < high && i < j < 18 ==> KEYWORD_WEIGHTS[i].0 != KEYWORD_WEIGHTS[j].0
  {
    forall i | low <= i < high
      ensures forall j :: i < j < 18 ==> KEYWORD_WEIGHTS[i].0 != KEYWORD_WEIGHTS[j].0 {
    }
  }

  lemma ListedKeysAreDistinct()
    ensures DistinctKeys(KEYWORD_WEIGHTS)
  {
    ListedKeysDiffer(0, 6);
    ListedKeysDiffer(6, 12);
    ListedKeysDiffer(12, 18);
    ListedWeightsStart();
    hide *;
  }

  lemma ListedWeightsQualify()
    ensures DistinctKeys(KEYWORD_WEIGHTS)
    ensures forall i :: 0 <= i < |KEYWORD_WEIGHTS| ==> KEYWORD_WEIGHTS[i].1 > 0.0
  {
    hide *;
    ListedKeysAreDistinct();
    ListedWeightsArePositive();
  }

  lemma StrayNodeOutweighs(ws: WeightList, table: Table, i: nat)
    requires DistinctKeys(ws) && (forall j :: 0 <= j < |ws| ==> ws[j].1 > 0.0) && i < |ws| && StrayNode(table, ws[i].0)
    ensures FillOut(ws, BuildCoalesced(table), "").weight > ListedKeywords(ws, Meaning(table))
  {
    RootWeight(ws, table);
  }

  lemma ForkIsStray(s: string, a: (string, string), b: (string, string))
    requires Fork(s, a.0, b.0)
    ensures StrayNode([a, b], s)
  {
    assert [a, b][..1] == [a] && [a][..0] == [];
    assert Meaning([a]) == Meaning([])[a.0 := a.1];
    assert Meaning([a, b]) == Meaning([a])[b.0 := b.1];
    assert a.0 in Meaning([a, b]) && b.0 in Meaning([a, b]);
  }

  /** With the weights of the source it can weigh more: form and fort branch behind for, which is listed. */
  lemma RootCanOutweighItsKeywords()
    ensures var table := [("form", "FORM"), ("fort", "FORT")];
      FillOut(KEYWORD_WEIGHTS, BuildCoalesced(table), "").weight > ListedKeywords(KEYWORD_WEIGHTS, Meaning(table))
  {
    hide FillOut, ListedKeywords, BuildCoalesced, Meaning, StrayNode, DistinctKeys;
    assert "form"[..3] == "for" == "fort"[..3];
    ForkIsStray("for", ("form", "FORM"), ("fort", "FORT"));
    ListedWeightsQualify();
    StrayNodeOutweighs(KEYWORD_WEIGHTS, [("form", "FORM"), ("fort", "FORT")], 10);
  }
}
