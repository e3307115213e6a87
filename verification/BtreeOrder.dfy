/**
 The binary tree as a search tree: the keys of its items ascend in order, so the items
 in order stand for a finite map from keys to items.
 */
module BtreeOrder {
  import opened BtreeShape
  import opened BtreeBalance

  /** `cmp` is a three-way comparison of a strict total order. */
  ghost predicate TotalOrder<K(!new)>(cmp: (K, K) -> int) {
    && (forall a, b :: cmp(a, b) == 0 <==> a == b)
    && (forall a, b :: cmp(a, b) < 0 <==> cmp(b, a) > 0)
    && (forall a, b, c :: cmp(a, b) < 0 && cmp(b, c) < 0 ==> cmp(a, c) < 0)
  }

  ghost predicate Ordered<K>(cmp: (K, K) -> int, s: seq<Item<K>>) {
    forall i, j :: 0 <= i < j < |s| ==> cmp(s[i].key, s[j].key) < 0
  }

  ghost predicate KeysDiffer<K>(s: seq<Item<K>>) {
    forall x, y :: x in s && y in s && x.key == y.key ==> x == y
  }

  ghost function Keys<K>(s: seq<Item<K>>): set<K> {
    set x | x in s :: x.key
  }

  ghost function Lookup<K>(s: seq<Item<K>>, k: K): Item<K>
    requires k in Keys(s)
    ensures Lookup(s, k) in s && Lookup(s, k).key == k
  {
    var x :| x in s && x.key == k; x
  }

  /** The finite map that a sequence of items stands for. */
  ghost function Dict<K>(s: seq<Item<K>>): map<K, Item<K>> {
    map k | k in Keys(s) :: Lookup(s, k)
  }

  ghost predicate AllBelow<K>(cmp: (K, K) -> int, s: seq<Item<K>>, k: K) {
    forall i :: 0 <= i < |s| ==> cmp(s[i].key, k) < 0
  }

  ghost predicate AllAbove<K>(cmp: (K, K) -> int, s: seq<Item<K>>, k: K) {
    forall i :: 0 <= i < |s| ==> cmp(s[i].key, k) > 0
  }

  lemma OrderedKeys<K(!new)>(cmp: (K, K) -> int, s: seq<Item<K>>)
    requires TotalOrder(cmp) && Ordered(cmp, s)
    ensures KeysDiffer(s)
  {
  }

  /** Splitting an ordered sequence at an item: what is before is below, what is after above. */
  lemma OrderedAround<K(!new)>(cmp: (K, K) -> int, a: seq<Item<K>>, x: Item<K>, b: seq<Item<K>>)
    requires TotalOrder(cmp) && Ordered(cmp, a + [x] + b)
    ensures AllBelow(cmp, a, x.key) && AllAbove(cmp, b, x.key) && Ordered(cmp, a + b)
  {
    var s, t := a + [x] + b, a + b;
    forall i | 0 <= i < |a| ensures cmp(a[i].key, x.key) < 0 {
      assert s[i] == a[i] && s[|a|] == x;
    }
    forall i | 0 <= i < |b| ensures cmp(b[i].key, x.key) > 0 {
      assert s[|a| + 1 + i] == b[i] && s[|a|] == x;
    }
    forall i, j | 0 <= i < j < |t| ensures cmp(t[i].key, t[j].key) < 0 {
      assert t[i] == s[if i < |a| then i else i + 1];
      assert t[j] == s[if j < |a| then j else j + 1];
    }
  }

  /** Everything before an item that is below `k` is below `k`, and dually. */
  lemma BelowChain<K(!new)>(cmp: (K, K) -> int, a: seq<Item<K>>, x: K, k: K)
    requires TotalOrder(cmp)
    ensures AllBelow(cmp, a, x) && cmp(x, k) < 0 ==> AllBelow(cmp, a, k)
    ensures AllAbove(cmp, a, x) && cmp(x, k) > 0 ==> AllAbove(cmp, a, k)
  {
  }

  lemma OrderedInsert<K(!new)>(cmp: (K, K) -> int, a: seq<Item<K>>, x: Item<K>, b: seq<Item<K>>)
    requires TotalOrder(cmp) && Ordered(cmp, a + b)
    requires AllBelow(cmp, a, x.key) && AllAbove(cmp, b, x.key)
    ensures Ordered(cmp, a + [x] + b)
  {
    var s, t := a + [x] + b, a + b;
    forall i, j | 0 <= i < j < |s| ensures cmp(s[i].key, s[j].key) < 0 {
      if i < |a| { assert s[i] == t[i] == a[i]; }
      if i > |a| { assert s[i] == t[i - 1]; }
      if j < |a| { assert s[j] == t[j]; }
      if j > |a| { assert s[j] == t[j - 1] == b[j - |a| - 1]; }
    }
  }

  /** One more item is one more entry of the map. */
  lemma DictAdd<K>(a: seq<Item<K>>, x: Item<K>, b: seq<Item<K>>)
    requires KeysDiffer(a + [x] + b) && x !in a + b
    ensures KeysDiffer(a + b) && x.key !in Dict(a + b)
    ensures Dict(a + [x] + b) == Dict(a + b)[x.key := x]
  {
    assert forall y :: y in a + [x] + b <==> y in a + b || y == x;
    assert x in a + [x] + b;
  }

  /** The search for `k` has come to the subtree `t`: what it left behind is on the right side. */
  ghost predicate Searching<K>(cmp: (K, K) -> int, c: Ctx<K>, k: K) {
    AllBelow(cmp, Before(c), k) && AllAbove(cmp, After(c), k)
  }

  /** What comes before and after the top of a subtree in the whole order. */
  ghost function Smaller<K>(c: Ctx<K>, t: Shape<K>): seq<Item<K>>
    requires t.Bin?
  {
    Before(c) + Seq(t.l)
  }

  ghost function Larger<K>(c: Ctx<K>, t: Shape<K>): seq<Item<K>>
    requires t.Bin?
  {
    Seq(t.r) + After(c)
  }

  lemma SplitAtTop<K>(c: Ctx<K>, t: Shape<K>)
    requires t.Bin?
    ensures Seq(Plug(c, t)) == Smaller(c, t) + [t.it] + Larger(c, t)
    ensures Before(InR(c, t.l, t.it)) == Smaller(c, t) + [t.it]
    ensures After(InL(c, t.it, t.r)) == [t.it] + Larger(c, t)
  {
    PlugSeq(c, t);
    GroupAround(Before(c), Seq(t.l), [t.it], Seq(t.r), After(c));
  }

  lemma GroupAround<T>(a: seq<T>, l: seq<T>, m: seq<T>, r: seq<T>, b: seq<T>)
    ensures a + (l + m + r) + b == (a + l) + m + (r + b)
    ensures a + (l + m) == (a + l) + m && m + r + b == m + (r + b)
  {
  }

  lemma Descend<K(!new)>(cmp: (K, K) -> int, c: Ctx<K>, t: Shape<K>, k: K)
    requires TotalOrder(cmp) && Ordered(cmp, Seq(Plug(c, t))) && Searching(cmp, c, k) && t.Bin?
    ensures cmp(t.it.key, k) < 0 ==> Searching(cmp, InR(c, t.l, t.it), k)
    ensures cmp(t.it.key, k) > 0 ==> Searching(cmp, InL(c, t.it, t.r), k)
    ensures t.it in Seq(Plug(c, t))
  {
    SplitAtTop(c, t);
    DescendSeq(cmp, Smaller(c, t), t.it, Larger(c, t), k);
  }

  lemma DescendSeq<K(!new)>(cmp: (K, K) -> int, a: seq<Item<K>>, x: Item<K>, b: seq<Item<K>>, k: K)
    requires TotalOrder(cmp) && Ordered(cmp, a + [x] + b)
    ensures cmp(x.key, k) < 0 ==> AllBelow(cmp, a + [x], k)
    ensures cmp(x.key, k) > 0 ==> AllAbove(cmp, [x] + b, k)
  {
    OrderedAround(cmp, a, x, b);
    BelowChain(cmp, a, x.key, k);
    BelowChain(cmp, b, x.key, k);
  }

  lemma NoSuchKey<K(!new)>(cmp: (K, K) -> int, a: seq<Item<K>>, b: seq<Item<K>>, k: K)
    requires TotalOrder(cmp) && AllBelow(cmp, a, k) && AllAbove(cmp, b, k)
    ensures k !in Keys(a + b)
  {
    forall i | 0 <= i < |a + b|
      ensures (a + b)[i].key != k
    {
      assert (a + b)[i] == if i < |a| then a[i] else b[i - |a|];
    }
  }

  lemma Missing<K(!new)>(cmp: (K, K) -> int, c: Ctx<K>, k: K)
    requires TotalOrder(cmp) && Searching(cmp, c, k) && KeysDiffer(Seq(Plug(c, Nil)))
    ensures k !in Dict(Seq(Plug(c, Nil)))
  {
    hide Plug, Before, After, TotalOrder, AllBelow, AllAbove, KeysDiffer;
    PlugSeq(c, Nil);
    assert Seq(Plug(c, Nil)) == Before(c) + After(c);
    NoSuchKey(cmp, Before(c), After(c), k);
  }

  /** Hanging `x` into the empty slot its search ended at extends the map. */
  lemma PlantedDict<K(!new)>(cmp: (K, K) -> int, c: Ctx<K>, x: Item<K>)
    requires TotalOrder(cmp) && Ordered(cmp, Seq(Plug(c, Nil))) && Searching(cmp, c, x.key)
    requires x !in Items(Plug(c, Nil))
    ensures var s, s' := Seq(Plug(c, Nil)), Seq(Plug(c, Bin(Nil, x, Nil)));
      && Ordered(cmp, s') && KeysDiffer(s') && KeysDiffer(s)
      && x.key !in Dict(s) && Dict(s') == Dict(s)[x.key := x]
  {
    PlugSeq(c, Nil);
    PlugSeq(c, Bin(Nil, x, Nil));
    SeqItem(Plug(c, Nil), x);
    var a, b := Before(c), After(c);
    assert Seq(Plug(c, Nil)) == a + b;
    assert Seq(Plug(c, Bin(Nil, x, Nil))) == a + [x] + b;
    OrderedInsert(cmp, a, x, b);
    OrderedKeys(cmp, a + [x] + b);
    DictAdd(a, x, b);
  }

  lemma NotAround<K(!new)>(cmp: (K, K) -> int, a: seq<Item<K>>, x: Item<K>, b: seq<Item<K>>)
    requires TotalOrder(cmp) && Ordered(cmp, a + [x] + b)
    ensures x !in a + b && KeysDiffer(a + [x] + b)
  {
    OrderedAround(cmp, a, x, b);
    OrderedKeys(cmp, a + [x] + b);
  }

  lemma SameKeysOrdered<K(!new)>(cmp: (K, K) -> int, a: seq<Item<K>>, x: Item<K>, y: Item<K>, b: seq<Item<K>>)
    requires Ordered(cmp, a + [x] + b) && y.key == x.key
    ensures Ordered(cmp, a + [y] + b)
  {
    var s, s' := a + [x] + b, a + [y] + b;
    forall i, j | 0 <= i < j < |s'| ensures cmp(s'[i].key, s'[j].key) < 0 {
      assert s'[i].key == s[i].key && s'[j].key == s[j].key;
    }
  }

  lemma SwapDict<K(!new)>(cmp: (K, K) -> int, a: seq<Item<K>>, x: Item<K>, y: Item<K>, b: seq<Item<K>>)
    requires TotalOrder(cmp) && Ordered(cmp, a + [x] + b) && y.key == x.key
    ensures var s, s' := a + [x] + b, a + [y] + b;
      && Ordered(cmp, s') && KeysDiffer(s') && KeysDiffer(s)
      && y.key in Dict(s) && Dict(s)[y.key] == x && Dict(s') == Dict(s)[y.key := y]
  {
    hide Ordered, KeysDiffer, TotalOrder, Dict;
    SameKeysOrdered(cmp, a, x, y, b);
    NotAround(cmp, a, x, b);
    NotAround(cmp, a, y, b);
    DictAdd(a, x, b);
    DictAdd(a, y, b);
  }

  /** An item with the same key in the same place replaces the entry of the map. */
  lemma ReplacedDict<K(!new)>(cmp: (K, K) -> int, c: Ctx<K>, t: Shape<K>, y: Item<K>)
    requires TotalOrder(cmp) && t.Bin? && Ordered(cmp, Seq(Plug(c, t))) && y.key == t.it.key
    ensures var s, s' := Seq(Plug(c, t)), Seq(Plug(c, Bin(t.l, y, t.r)));
      && Ordered(cmp, s') && KeysDiffer(s') && KeysDiffer(s)
      && y.key in Dict(s) && Dict(s)[y.key] == t.it && Dict(s') == Dict(s)[y.key := y]
  {
    SplitAtTop(c, t);
    SplitAtTop(c, Bin(t.l, y, t.r));
    SwapDict(cmp, Smaller(c, t), t.it, y, Larger(c, t));
  }

  lemma CutDict<K(!new)>(cmp: (K, K) -> int, a: seq<Item<K>>, x: Item<K>, b: seq<Item<K>>)
    requires TotalOrder(cmp) && Ordered(cmp, a + [x] + b)
    ensures var s, s' := a + [x] + b, a + b;
      && Ordered(cmp, s') && KeysDiffer(s') && KeysDiffer(s)
      && x.key in Dict(s) && Dict(s)[x.key] == x && Dict(s') == Dict(s) - {x.key}
  {
    hide KeysDiffer, TotalOrder, Dict;
    OrderedAround(cmp, a, x, b);
    NotAround(cmp, a, x, b);
    DictAdd(a, x, b);
  }

  /** Taking an item out removes its entry and nothing else. */
  lemma RemovedDict<K(!new)>(cmp: (K, K) -> int, c: Ctx<K>, t: Shape<K>)
    requires TotalOrder(cmp) && t.Bin? && Distinct(t) && Ordered(cmp, Seq(Plug(c, t)))
    ensures var s, s' := Seq(Plug(c, t)), Seq(Plug(c, Join(t.l, t.r)));
      && Ordered(cmp, s') && KeysDiffer(s') && KeysDiffer(s)
      && t.it.key in Dict(s) && Dict(s)[t.it.key] == t.it && Dict(s') == Dict(s) - {t.it.key}
  {
    hide Ordered, KeysDiffer, TotalOrder, Dict, Plug;
    SplitAtTop(c, t);
    PlugSeq(c, Join(t.l, t.r));
    JoinKeeps(t.l, t.r);
    var a, l, r, b := Before(c), Seq(t.l), Seq(t.r), After(c);
    assert a + (l + r) + b == (a + l) + (r + b);
    CutDict(cmp, Smaller(c, t), t.it, Larger(c, t));
  }
}
