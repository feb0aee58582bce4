/**
 The class `Trie` of KeywordLookupGenerator.py, updated in place. Each method is
 tied to the function on trie values of the same name.
 */
module KeywordGenerator {
  import opened Options
  import T = KeywordTrie
  import W = KeywordWeights
  import E = KeywordMatcher
  import C = KeywordTheorems
  import M = CompareMacros

  class Trie {
    var prefix: string
    var keys: seq<Trie>  // the dictionary's values in iteration order; a child's key is its prefix
    var value: Option<string>
    var fullPrefix: string
    var selfWeight: real
    var weight: real

    ghost var Repr: set<Trie>
    ghost var View: T.Tree

    ghost predicate Valid()
      reads this, Repr
      ensures Valid() ==> this in Repr
      decreases Repr, 0
    {
      && this in Repr
      && View == T.Tree(prefix, value, View.kids, fullPrefix, selfWeight, weight)
      && Forest(keys, View.kids, Repr - {this})
    }

    constructor (prefix: string)
      ensures Valid() && fresh(Repr) && Repr == {this} && keys == []
      ensures View == T.Leaf(prefix)
    {
      this.prefix, keys, value := prefix, [], None;
      fullPrefix, selfWeight, weight := "", 0.0, 0.0;
      Repr, View := {this}, T.Leaf(prefix);
    }

    /** Look-up of a key among nodes: the position of the first node with that prefix, or the length. */
    static method IndexOf(nodes: seq<Trie>, key: string) returns (i: nat)
      ensures i <= |nodes| && (i < |nodes| ==> nodes[i].prefix == key)
      ensures forall j :: 0 <= j < i ==> nodes[j].prefix != key
    {
      i := 0;
      while i < |nodes| && nodes[i].prefix != key
        invariant i <= |nodes| && forall j :: 0 <= j < i ==> nodes[j].prefix != key
      {
        i := i + 1;
      }
    }

    method Insert(key: string, token: string)
      requires Valid()
      modifies Repr
      ensures Valid() && fresh(Repr - old(Repr))
      ensures View == T.Insert(old(View), key, token)
      decreases |key|, 1
    {
      if |key| == 0 {
        value := Some(token);
        View := View.(value := value);
        return;
      }
      var i := IndexOf(keys, key[..1]);
      if i == |keys| { AddChild(key[..1]); }
      InsertBelow(i, key, token);
    }

    /** A new, empty child for a character that has none yet. */
    method AddChild(key: string)
      requires Valid()
      modifies this
      ensures Valid() && fresh(Repr - old(Repr)) && |keys| == |old(keys)| + 1
      ensures View == old(View).(kids := old(View).kids + [T.Leaf(key)])
    {
      var child := new Trie(key);
      Append(keys, View.kids, Repr - {this}, child);
      keys := keys + [child];
      Repr := Repr + child.Repr;
      View := View.(kids := View.kids + [child.View]);
    }

    /** Inserts the rest of the key into child i. */
    method InsertBelow(i: nat, key: string, token: string)
      requires Valid() && |key| > 0 && i < |keys| && i < |View.kids|
      modifies Repr
      ensures Valid() && fresh(Repr - old(Repr))
      ensures View == old(View).(kids := old(View).kids[i := T.Insert(old(View).kids[i], key[1..], token)])
      decreases |key|, 0
    {
      hide T.Insert, T.IndexOf, Forest;
      var child := keys[i];
      ghost var others := Repr - {this} - child.Repr;
      TakeOut(keys, View.kids, Repr - {this}, i);
      child.Insert(key[1..], token);
      PutBack(keys, View.kids, others, i, child);
      Repr := {this} + others + child.Repr;
      assert Repr - {this} == others + child.Repr && keys[i := child] == keys;
      View := View.(kids := View.kids[i := child.View]);
    }

    method Coalesce() returns (t: Trie)
      requires Valid()
      modifies Repr
      ensures Valid() && fresh(Repr - old(Repr)) && View == T.CoalesceKids(old(View))
      ensures t.Valid() && fresh(t.Repr - old(Repr)) && t.View == T.Coalesce(old(View))
      decreases Repr, 1
    {
      CoalesceKids();
      if value != None || |keys| != 1 {
        t := this;
      } else {
        t := Merged();
      }
    }

    /** Rebuilds the dictionary from the coalesced children. */
    method CoalesceKids()
      requires Valid()
      modifies Repr
      ensures Valid() && fresh(Repr - old(Repr)) && View == T.CoalesceKids(old(View))
      decreases Repr, 0
    {
      hide T.CoalesceAll;
      T.CoalesceNone();
      var done: seq<Trie> := [];
      ghost var D, K := {}, Repr - {this};
      assert keys[0..] == keys && View.kids[0..] == View.kids;
      var i := 0;
      while i < |keys|
        invariant unchanged(this) && Midway(done, i, D, K)
        invariant K <= Repr && fresh(D - Repr)
      {
        done, D, K := CoalesceKid(done, i, D, K);
        i := i + 1;
      }
      assert View.kids[..i] == View.kids;
      keys, View, Repr := done, T.CoalesceKids(View), {this} + D;
      assert Repr - {this} == D;
    }

    /** The first i children are coalesced into done, living in D; the others are untouched, living in K. */
    ghost predicate Midway(done: seq<Trie>, i: nat, D: set<Trie>, K: set<Trie>)
      reads this, D, K
    {
      && i <= |keys| == |View.kids| && D !! K && this !in D && this !in K
      && Forest(done, T.CoalesceAll(View.kids[..i]), D)
      && Forest(keys[i..], View.kids[i..], K)
    }

    /** Coalesces child i and puts the result into the new dictionary. */
    method CoalesceKid(done: seq<Trie>, i: nat, ghost D: set<Trie>, ghost K: set<Trie>)
      returns (r: seq<Trie>, ghost D': set<Trie>, ghost K': set<Trie>)
      requires i < |keys| && Midway(done, i, D, K)
      modifies K
      ensures Midway(r, i + 1, D', K') && K' <= K && fresh(D' - D - K)
      decreases K, 2
    {
      TakeFirst(keys, View.kids, K, i);
      CoalesceAllStep(View.kids, i);
      K' := K - keys[i].Repr;
      var c := keys[i].Coalesce();
      r := DictPut(done, c, T.CoalesceAll(View.kids[..i]), D);
      D' := D + c.Repr;
    }

    /** Dictionary assignment `nodes[c.prefix] = c`. */
    static method DictPut(nodes: seq<Trie>, c: Trie, ghost views: seq<T.Tree>, ghost R: set<Trie>)
      returns (r: seq<Trie>)
      requires Forest(nodes, views, R) && c.Valid() && c.Repr !! R
      ensures Forest(r, T.DictPut(views, c.View), R + c.Repr)
    {
      var k := IndexOf(nodes, c.prefix);
      PutIn(nodes, views, R, k, c);
      r := if k < |nodes| then nodes[k := c] else nodes + [c];
    }

    /** A new node that takes over the only child's value and children. */
    method Merged() returns (t: Trie)
      requires Valid() && |keys| == 1 == |View.kids|
      ensures fresh(t) && t.Valid() && t.Repr <= Repr + {t} && t.View == T.Merge(View)
    {
      var suffix := keys[0];
      assert suffix.Valid() && suffix.View == View.kids[0];
      ghost var R := suffix.Repr - {suffix};
      t := new Trie(prefix + suffix.prefix);
      t.value := suffix.value;
      t.keys := suffix.keys;
      t.Repr := {t} + R;
      t.View := T.Merge(View);
      assert t.Repr - {t} == R;
      assert Forest(t.keys, suffix.View.kids, R);
    }

    method FillOut(ws: W.WeightList, pre: string)
      requires Valid()
      modifies Repr
      ensures Valid() && Repr == old(Repr) && View == W.FillOut(ws, old(View), pre)
      decreases Repr, 2
    {
      fullPrefix := pre + prefix;
      selfWeight := W.WeightOf(ws, fullPrefix);
      View := View.(fullPrefix := fullPrefix, selfWeight := selfWeight);
      FillKids(ws);
      SortKids();
    }

    /** Fills out the children and adds up the weight. */
    method FillKids(ws: W.WeightList)
      requires Valid()
      modifies Repr
      ensures Valid() && Repr == old(Repr)
      ensures var kids := W.FillAll(ws, old(View).kids, old(fullPrefix));
        View == old(View).(kids := kids, weight := old(selfWeight) + W.Sum(W.Weights(kids)))
      decreases Repr, 1
    {
      hide W.FillAll, W.Weights, W.Sum;
      weight := FillEach(ws);
      View := View.(kids := W.FillAll(ws, View.kids, fullPrefix), weight := weight);
    }

    method FillEach(ws: W.WeightList) returns (total: real)
      requires Valid()
      modifies Repr - {this}
      ensures Forest(keys, W.FillAll(ws, View.kids, fullPrefix), Repr - {this})
      ensures total == selfWeight + W.Sum(W.Weights(W.FillAll(ws, View.kids, fullPrefix)))
      decreases Repr, 0
    {
      ghost var D, K := {}, Repr - {this};
      NoneFilled(ws);
      total := selfWeight;
      var i := 0;
      while i < |keys|
        invariant HalfFilled(ws, i, total, D, K) && D <= Repr && K <= Repr
      {
        total, D, K := FillKid(ws, i, total, D, K);
        i := i + 1;
      }
      AllFilled(ws, total, D, K);
    }

    /**
     The first i children are filled out, living in D, and total is what they add up to;
     the others are untouched, living in K.
     */
    ghost predicate HalfFilled(ws: W.WeightList, i: nat, total: real, D: set<Trie>, K: set<Trie>)
      reads this, D, K
    {
      && i <= |keys| == |View.kids| && D !! K && this !in D && this !in K
      && Forest(keys[..i], W.FillAll(ws, View.kids[..i], fullPrefix), D)
      && Forest(keys[i..], View.kids[i..], K)
      && total == selfWeight + W.Sum(W.Weights(W.FillAll(ws, View.kids[..i], fullPrefix)))
    }

    lemma NoneFilled(ws: W.WeightList)
      requires Valid()
      ensures HalfFilled(ws, 0, selfWeight, {}, Repr - {this})
    {
      assert keys[0..] == keys && View.kids[0..] == View.kids;
    }

    lemma AllFilled(ws: W.WeightList, total: real, D: set<Trie>, K: set<Trie>)
      requires HalfFilled(ws, |keys|, total, D, K) && D <= Repr
      ensures Forest(keys, W.FillAll(ws, View.kids, fullPrefix), Repr - {this})
      ensures total == selfWeight + W.Sum(W.Weights(W.FillAll(ws, View.kids, fullPrefix)))
    {
      assert View.kids[..|keys|] == View.kids && keys[..|keys|] == keys;
      Widen(keys, W.FillAll(ws, View.kids, fullPrefix), D, Repr - {this});
    }

    method FillKid(ws: W.WeightList, i: nat, total: real, ghost D: set<Trie>, ghost K: set<Trie>)
      returns (total': real, ghost D': set<Trie>, ghost K': set<Trie>)
      requires i < |keys| && HalfFilled(ws, i, total, D, K)
      modifies K
      ensures HalfFilled(ws, i + 1, total', D', K') && D' <= D + K && K' <= K
      decreases K, 3
    {
      hide W.FillOut, W.FillAll, W.Weights, W.Sum;
      TakeFirst(keys, View.kids, K, i);
      K' := K - keys[i].Repr;
      keys[i].FillOut(ws, fullPrefix);
      FillAllStep(ws, View.kids, i, fullPrefix);
      Append(keys[..i], W.FillAll(ws, View.kids[..i], fullPrefix), D, keys[i]);
      assert keys[..i] + [keys[i]] == keys[..i + 1];
      D' := D + keys[i].Repr;
      total' := total + keys[i].weight;
    }

    /** The dictionary becomes a list, by the stable descending sort on weight. */
    method SortKids()
      requires Valid()
      modifies this
      ensures Valid() && Repr == old(Repr) && View == old(View).(kids := W.SortKids(old(View).kids))
    {
      keys := Sorted(keys, View.kids, Repr - {this});
      View := View.(kids := W.SortKids(View.kids));
    }

    /** sorted(nodes, key=weight, reverse=True) */
    static method Sorted(nodes: seq<Trie>, ghost views: seq<T.Tree>, ghost R: set<Trie>) returns (r: seq<Trie>)
      requires Forest(nodes, views, R)
      ensures Forest(r, W.SortKids(views), R)
    {
      var weights := WeightsOf(nodes, views, R);
      var order := W.Order(weights, |nodes|);
      W.OrderSorts(weights, |nodes|);
      Permuted(nodes, views, R, order);
      r := W.Apply(order, nodes);
    }

    /** The sort key, operator.attrgetter('weight'). */
    static method WeightsOf(nodes: seq<Trie>, ghost views: seq<T.Tree>, ghost R: set<Trie>) returns (weights: seq<real>)
      requires Forest(nodes, views, R)
      ensures weights == W.Weights(views)
    {
      forall i | 0 <= i < |nodes| ensures nodes[i].weight == views[i].weight { assert nodes[i].Valid(); }
      weights := seq(|nodes|, i requires 0 <= i < |nodes| reads nodes => nodes[i].weight);
    }

    /** printSubTreeAsC, for one character type. */
    method PrintSubTree(ty: M.CharType) returns (code: E.Block)
      requires Valid() && W.FilledBelow(View)
      ensures code == E.Emit(ty, View)
      decreases Repr
    {
      hide E.EmitTest, E.EmitArms;
      var guard := match value
        case None => None
        case Some(token) => Some(E.Guard(|fullPrefix|, |fullPrefix|, fullPrefix, token));
      var arms: seq<E.Arm> := [];
      var rootIndex := |fullPrefix|;
      var i := 0;
      while i < |keys|
        invariant i <= |keys|
        invariant arms == E.EmitArms(ty, rootIndex, View.kids[..i])
      {
        var trie := keys[i];
        EmitArmsStep(ty, View, i);
        var test := trie.PrintTest(ty, rootIndex);
        var body := trie.PrintSubTree(ty);
        arms := arms + [E.Arm(test, body)];
        i := i + 1;
      }
      assert View.kids[..i] == View.kids;
      code := E.Block(guard, arms);
    }

    /** The test that selects this child; a chunk of three is widened to four by re-reading a character. */
    method PrintTest(ty: M.CharType, rootIndex: nat) returns (test: E.Test)
      requires Valid() && rootIndex <= |fullPrefix|
      ensures test == E.EmitTest(ty, rootIndex, View)
    {
      var baseIndex, k := rootIndex, prefix;
      if baseIndex > 0 && |k| == 3 {
        baseIndex := baseIndex - 1;
        k := [fullPrefix[baseIndex]] + k;
      }
      if |k| == 1 {
        test := E.CharIs(baseIndex, k[0]);
      } else {
        test := E.Compare(ty, baseIndex, k);
      }
    }

    method MaxLength() returns (max: nat)
      requires Valid()
      ensures max == E.MaxLength(View)
      decreases Repr
    {
      max := |fullPrefix|;
      var i := 0;
      while i < |keys|
        invariant i <= |keys| && max == E.MaxOver(|fullPrefix|, View.kids[..i])
      {
        assert View.kids[..i + 1][..i] == View.kids[..i];
        var l := keys[i].MaxLength();
        if l > max { max := l; }
        i := i + 1;
      }
      assert View.kids[..i] == View.kids;
    }
  }

  /** The nodes are valid tries with the given values, living in disjoint parts of R. */
  ghost predicate Forest(nodes: seq<Trie>, views: seq<T.Tree>, R: set<Trie>)
    reads R
    decreases R, 1
  {
    && |nodes| == |views|
    && (forall i :: 0 <= i < |nodes| ==> nodes[i] in R && nodes[i].Repr <= R)
    && (forall i :: 0 <= i < |nodes| ==> nodes[i].Valid() && nodes[i].View == views[i])
    && (forall i, j :: 0 <= i < j < |nodes| ==> nodes[i].Repr !! nodes[j].Repr)
  }

  function Without<X>(xs: seq<X>, i: nat): seq<X>
    requires i < |xs|
  {
    xs[..i] + xs[i + 1..]
  }

  lemma TakeOut(nodes: seq<Trie>, views: seq<T.Tree>, R: set<Trie>, i: nat)
    requires Forest(nodes, views, R) && i < |nodes|
    ensures nodes[i].Valid() && nodes[i].Repr <= R && nodes[i].View == views[i]
    ensures Forest(Without(nodes, i), Without(views, i), R - nodes[i].Repr)
  {
  }

  lemma TakeFirst(nodes: seq<Trie>, views: seq<T.Tree>, R: set<Trie>, i: nat)
    requires i < |nodes| == |views| && Forest(nodes[i..], views[i..], R)
    ensures nodes[i].Valid() && nodes[i].Repr <= R && nodes[i].View == views[i]
    ensures Forest(nodes[i + 1..], views[i + 1..], R - nodes[i].Repr)
  {
    TakeOut(nodes[i..], views[i..], R, 0);
    assert Without(nodes[i..], 0) == nodes[i + 1..] && Without(views[i..], 0) == views[i + 1..];
  }

  lemma PutBack(nodes: seq<Trie>, views: seq<T.Tree>, R: set<Trie>, i: nat, c: Trie)
    requires i < |nodes| == |views| && Forest(Without(nodes, i), Without(views, i), R)
    requires c.Valid() && c.Repr !! R
    ensures Forest(nodes[i := c], views[i := c.View], R + c.Repr)
  {
    var ns, vs := Without(nodes, i), Without(views, i);
    forall j | 0 <= j < |nodes| && j != i
      ensures nodes[j] in R && nodes[j].Repr <= R && nodes[j].Valid() && nodes[j].View == views[j]
    {
      var k := if j < i then j else j - 1;
      assert ns[k] == nodes[j] && vs[k] == views[j];
    }
    forall j, k | 0 <= j < k < |nodes| && j != i && k != i ensures nodes[j].Repr !! nodes[k].Repr {
      assert nodes[j] == ns[if j < i then j else j - 1];
      assert nodes[k] == ns[if k < i then k else k - 1];
    }
  }

  lemma CoalesceAllStep(kids: seq<T.Tree>, i: nat)
    requires i < |kids|
    ensures T.CoalesceAll(kids[..i + 1]) == T.DictPut(T.CoalesceAll(kids[..i]), T.Coalesce(kids[i]))
  {
    assert kids[..i + 1][..i] == kids[..i];
  }

  lemma EmitArmsStep(ty: M.CharType, t: T.Tree, i: nat)
    requires W.FilledBelow(t) && i < |t.kids|
    ensures E.EmitArms(ty, |t.fullPrefix|, t.kids[..i + 1]) == E.EmitArms(ty, |t.fullPrefix|, t.kids[..i])
      + [E.Arm(E.EmitTest(ty, |t.fullPrefix|, t.kids[i]), E.Emit(ty, t.kids[i]))]
  {
    assert t.kids[..i + 1][..i] == t.kids[..i];
  }

  lemma FillAllStep(ws: W.WeightList, kids: seq<T.Tree>, i: nat, full: string)
    requires i < |kids|
    ensures W.FillAll(ws, kids[..i + 1], full) == W.FillAll(ws, kids[..i], full) + [W.FillOut(ws, kids[i], full)]
    ensures W.Sum(W.Weights(W.FillAll(ws, kids[..i + 1], full))) ==
      W.Sum(W.Weights(W.FillAll(ws, kids[..i], full))) + W.FillOut(ws, kids[i], full).weight
  {
    assert kids[..i + 1][..i] == kids[..i];
    var a, b := W.FillAll(ws, kids[..i], full), W.FillAll(ws, kids[..i + 1], full);
    assert W.Weights(b)[..i] == W.Weights(a);
  }

  lemma Append(nodes: seq<Trie>, views: seq<T.Tree>, R: set<Trie>, c: Trie)
    requires Forest(nodes, views, R) && c.Valid() && c.Repr !! R
    ensures Forest(nodes + [c], views + [c.View], R + c.Repr)
  {
    var n := |nodes|;
    assert Without(nodes + [c], n) == nodes && Without(views + [c.View], n) == views;
    PutBack(nodes + [c], views + [c.View], R, n, c);
    assert (nodes + [c])[n := c] == nodes + [c] && (views + [c.View])[n := c.View] == views + [c.View];
  }

  lemma Permuted(nodes: seq<Trie>, views: seq<T.Tree>, R: set<Trie>, order: seq<nat>)
    requires Forest(nodes, views, R) && W.Permutes(order, |nodes|)
    ensures Forest(W.Apply(order, nodes), W.Apply(order, views), R)
  {
    var ns := W.Apply(order, nodes);
    forall i, j | 0 <= i < j < |ns| ensures ns[i].Repr !! ns[j].Repr {
      assert order[i] < order[j] || order[j] < order[i];
    }
  }

  lemma Widen(nodes: seq<Trie>, views: seq<T.Tree>, R: set<Trie>, S: set<Trie>)
    requires Forest(nodes, views, R) && R <= S
    ensures Forest(nodes, views, S)
  {
  }

  /** The dictionary assignment on nodes is the one on values. */
  lemma PutIn(nodes: seq<Trie>, views: seq<T.Tree>, R: set<Trie>, k: nat, c: Trie)
    requires Forest(nodes, views, R) && c.Valid() && c.Repr !! R
    requires k <= |nodes| && (k < |nodes| ==> nodes[k].prefix == c.prefix)
    requires forall j :: 0 <= j < k ==> nodes[j].prefix != c.prefix
    ensures Forest(if k < |nodes| then nodes[k := c] else nodes + [c], T.DictPut(views, c.View), R + c.Repr)
  {
    assert k == T.IndexOf(views, c.View.prefix);
    if k < |nodes| {
      TakeOut(nodes, views, R, k);
      PutBack(nodes, views, R - nodes[k].Repr, k, c);
      Widen(nodes[k := c], views[k := c.View], R - nodes[k].Repr + c.Repr, R + c.Repr);
    } else {
      Append(nodes, views, R, c);
    }
  }

  /**
   The whole script: both versions of the matcher and maxTokenLength. The
   node that the root's coalesce returns is dropped.
   */
  method Generate(keywords: T.Table) returns (uchar: E.Block, lchar: E.Block, maxTokenLength: nat)
    ensures uchar == C.Generated(W.KEYWORD_WEIGHTS, keywords, M.UCHAR)
    ensures lchar == C.Generated(W.KEYWORD_WEIGHTS, keywords, M.CHAR)
    ensures maxTokenLength == C.Longest(keywords) + 1
  {
    var trie := new Trie("");
    var i := 0;
    while i < |keywords|
      invariant i <= |keywords| && trie.Valid() && fresh(trie.Repr)
      invariant trie.View == T.Build(keywords[..i])
    {
      assert keywords[..i + 1][..i] == keywords[..i];
      trie.Insert(keywords[i].0, keywords[i].1);
      i := i + 1;
    }
    assert keywords[..i] == keywords;
    var dropped := trie.Coalesce();
    trie.FillOut(W.KEYWORD_WEIGHTS, "");
    W.FillOutReorders(W.KEYWORD_WEIGHTS, T.BuildCoalesced(keywords), "");
    uchar := trie.PrintSubTree(M.UCHAR);
    lchar := trie.PrintSubTree(M.CHAR);
    var max := trie.MaxLength();
    C.MaxLengthIsLongest(W.KEYWORD_WEIGHTS, keywords);
    maxTokenLength := max + 1;
  }
}
