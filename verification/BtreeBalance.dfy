/**
 The restructuring operations of the binary tree, as functions on shapes, and what
 they promise: rotations keep the order of the items, moving an item to the root costs
 exactly its depth, and a rebalanced tree splits every subtree in half.
 */
module BtreeBalance {
  import opened BtreeShape
  import opened Power

  function RotR<K>(t: Shape<K>): Shape<K> {
    match t
    case Bin(Bin(a, y, b), x, d) => Bin(a, y, Bin(b, x, d))
    case _ => t
  }

  function RotL<K>(t: Shape<K>): Shape<K> {
    match t
    case Bin(a, x, Bin(b, y, d)) => Bin(Bin(a, x, b), y, d)
    case _ => t
  }

  lemma RotRKeeps<K>(t: Shape<K>)
    ensures Seq(RotR(t)) == Seq(t) && Items(RotR(t)) == Items(t)
    ensures Distinct(t) ==> Distinct(RotR(t))
  {
    if t.Bin? && t.l.Bin? {
      var a, y, b, x, d := t.l.l, t.l.it, t.l.r, t.it, t.r;
      var q := Bin(b, x, d);
      assert RotR(t) == Bin(a, y, q);
      assert Seq(a) + [y] + Seq(b) + [x] + Seq(d) == Seq(a) + [y] + (Seq(b) + [x] + Seq(d));
      assert Items(q) == Items(b) + {x} + Items(d);
      if Distinct(t) {
        assert Distinct(t.l) && y in Items(t.l);
        assert Distinct(q);
      }
    }
  }

  lemma RotLKeeps<K>(t: Shape<K>)
    ensures Seq(RotL(t)) == Seq(t) && Items(RotL(t)) == Items(t)
    ensures Distinct(t) ==> Distinct(RotL(t))
  {
    if t.Bin? && t.r.Bin? {
      var a, x, b, y, d := t.l, t.it, t.r.l, t.r.it, t.r.r;
      var q := Bin(a, x, b);
      assert RotL(t) == Bin(q, y, d);
      assert Seq(a) + [x] + (Seq(b) + [y] + Seq(d)) == Seq(a) + [x] + Seq(b) + [y] + Seq(d);
      assert Items(q) == Items(a) + {x} + Items(b);
      if Distinct(t) {
        assert Distinct(t.r) && y in Items(t.r);
        assert Distinct(q);
      }
    }
  }

  /** The number of links from the top of `t` down to `x`. */
  ghost function Depth<K>(t: Shape<K>, x: Item<K>): nat
    requires x in Items(t)
  {
    if x == t.it then 0
    else if x in Items(t.l) then 1 + Depth(t.l, x)
    else 1 + Depth(t.r, x)
  }

  /** Rotates `x` up until it is at the top. */
  ghost function MoveToTop<K>(t: Shape<K>, x: Item<K>): (u: Shape<K>)
    requires x in Items(t)
    ensures u.Bin? && u.it == x
  {
    if x == t.it then t
    else if x in Items(t.l) then RotR(Bin(MoveToTop(t.l, x), t.it, t.r))
    else RotL(Bin(t.l, t.it, MoveToTop(t.r, x)))
  }

  lemma {:induction false} MoveToTopKeeps<K>(t: Shape<K>, x: Item<K>)
    requires x in Items(t)
    ensures Seq(MoveToTop(t, x)) == Seq(t) && Items(MoveToTop(t, x)) == Items(t)
    ensures Distinct(t) ==> Distinct(MoveToTop(t, x))
  {
    if x == t.it {
    } else if x in Items(t.l) {
      MoveToTopKeeps(t.l, x);
      RotRKeeps(Bin(MoveToTop(t.l, x), t.it, t.r));
    } else {
      MoveToTopKeeps(t.r, x);
      RotLKeeps(Bin(t.l, t.it, MoveToTop(t.r, x)));
    }
  }

  /** One rotation at the parent of `x` brings it one level up and changes nothing about
      where the climb ends. */
  lemma {:induction false} OneStepUp<K>(up: Ctx<K>, w: Shape<K>, w': Shape<K>, x: Item<K>)
    requires x in Items(w) && Items(w') == Items(w) && Fit(up, w)
    requires MoveToTop(w', x) == MoveToTop(w, x)
    requires Depth(w, x) == Depth(w', x) + 1
    ensures Items(Plug(up, w')) == Items(Plug(up, w)) && x in Items(Plug(up, w))
    ensures MoveToTop(Plug(up, w'), x) == MoveToTop(Plug(up, w), x)
    ensures Depth(Plug(up, w), x) == Depth(Plug(up, w'), x) + 1
    decreases up
  {
    match up
    case Hole =>
    case InL(c, it, r) => OneStepUp(c, Bin(w, it, r), Bin(w', it, r), x);
    case InR(c, l, it) => OneStepUp(c, Bin(l, it, w), Bin(l, it, w'), x);
  }

  /** Where the parent of `x` is, and what a rotation there makes of the tree. */
  lemma StepUp<K>(c: Ctx<K>, u: Shape<K>, x: Item<K>) returns (up: Ctx<K>, w: Shape<K>, v: Shape<K>)
    requires Distinct(Plug(c, u)) && x in Items(u) && x != Top(u)
    ensures w.Bin? && Plug(up, w) == Plug(c, u)
    ensures Top(w.l) == x || Top(w.r) == x
    ensures Top(w.l) == x ==> Top(w.r) != x
    ensures Plug(c, v) == Plug(up, if Top(w.l) == x then RotR(w) else RotL(w))
    ensures x in Items(v) && Items(v) == Items(u)
    ensures MoveToTop(v, x) == MoveToTop(u, x) && Depth(u, x) == Depth(v, x) + 1
    ensures up.Hole? ==> c.Hole? && v == MoveToTop(u, x) && Depth(u, x) == 1
  {
    var d, s := PlaceOf(u, x);
    up := Compose(c, d.up);
    w := if d.InL? then Bin(s, d.it, d.r) else Bin(d.l, d.it, s);
    PlugCompose(c, d.up, w);
    PlugDistinct(c, u);
    PlugDistinct(d.up, w);
    assert x in Items(s);
    if d.InL? && d.r.Bin? { assert d.r.it in Items(d.r); }
    if d.InR? && d.l.Bin? { assert d.l.it in Items(d.l); }
    var w' := if d.InL? then RotR(w) else RotL(w);
    RotRKeeps(w);
    RotLKeeps(w);
    v := Plug(d.up, w');
    PlugCompose(c, d.up, w');
    OneStepUp(d.up, w, w', x);
  }

  // ----- unbalancing

  ghost function RightSpine<K>(t: Shape<K>): nat {
    if t.Nil? then 0 else 1 + RightSpine(t.r)
  }

  /** The tree in which no item has a left child. */
  ghost function Chain<K>(s: seq<Item<K>>): Shape<K> {
    if s == [] then Nil else Bin(Nil, s[0], Chain(s[1..]))
  }

  lemma {:induction false} ChainShape<K>(s: seq<Item<K>>)
    ensures Seq(Chain(s)) == s && RightSpine(Chain(s)) == |s|
  {
    if s == [] {
    } else {
      ChainShape(s[1..]);
      assert s == [] + [s[0]] + s[1..];
    }
  }

  lemma {:induction false} RightSpineBound<K>(t: Shape<K>)
    ensures RightSpine(t) <= |Seq(t)|
  {
    if t.Bin? { RightSpineBound(t.r); }
  }

  // ----- rebalancing

  /** Every subtree of n items has n/2 of them on its left. */
  ghost predicate Halved<K>(t: Shape<K>) {
    t.Bin? ==> |Seq(t.l)| == |Seq(t)| / 2 && Halved(t.l) && Halved(t.r)
  }

  ghost function Balanced<K>(s: seq<Item<K>>): Shape<K> {
    if s == [] then Nil
    else
      var m := |s| / 2;
      Bin(Balanced(s[..m]), s[m], Balanced(s[m+1..]))
  }

  lemma {:induction false} BalancedSeq<K>(s: seq<Item<K>>)
    ensures Seq(Balanced(s)) == s
    decreases |s|
  {
    if s == [] {
    } else {
      var m := |s| / 2;
      BalancedSeq(s[..m]);
      BalancedSeq(s[m+1..]);
      assert s == s[..m] + [s[m]] + s[m+1..];
    }
  }

  /** The order of the items determines the halved shape. */
  lemma {:induction false} HalvedIsBalanced<K>(t: Shape<K>)
    ensures Halved(t) <==> t == Balanced(Seq(t))
  {
    if t.Bin? {
      var s, m := Seq(t), |Seq(t)| / 2;
      HalvedIsBalanced(t.l);
      HalvedIsBalanced(t.r);
      if Halved(t) {
        assert s[..m] == Seq(t.l) && s[m] == t.it && s[m+1..] == Seq(t.r);
      }
      if t == Balanced(s) {
        BalancedSeq(s[..m]);
        BalancedSeq(s[m+1..]);
      }
    }
  }

  ghost function Height<K>(t: Shape<K>): nat {
    if t.Nil? then 0 else
      var a, b := Height(t.l), Height(t.r);
      1 + if a < b then b else a
  }

  /** A halved tree of n > 0 items has height floor(log2 n) + 1. */
  lemma {:induction false} HalvedHeight<K>(t: Shape<K>)
    requires Halved(t) && t.Bin?
    ensures Height(t) >= 1 && Pow2(Height(t) - 1) <= |Seq(t)| < Pow2(Height(t))
  {
    var n, a, b := |Seq(t)|, Height(t.l), Height(t.r);
    assert n == |Seq(t.l)| + 1 + |Seq(t.r)|;
    if t.l.Nil? {
      assert n == 1;
      assert t.r.Nil?;
    } else {
      HalvedHeight(t.l);
      if t.r.Nil? {
      } else {
        HalvedHeight(t.r);
        if a < b { Pow2Grows(a, b - 1); }
      }
    }
  }

  /** The middle item in order, the later one when the count is even. */
  ghost function Median<K>(t: Shape<K>): Item<K>
    requires t.Bin?
  {
    Seq(t)[|Seq(t)| / 2]
  }

  lemma MedianToTop<K>(t: Shape<K>)
    requires t.Bin? && Distinct(t)
    ensures Median(t) in Items(t)
    ensures var u := MoveToTop(t, Median(t)); var m := |Seq(t)| / 2;
      && u.it == Median(t) && Distinct(u) && Items(u) == Items(t)
      && Seq(u.l) == Seq(t)[..m] && Seq(u.r) == Seq(t)[m+1..]
  {
    var x, m, s := Median(t), |Seq(t)| / 2, Seq(t);
    assert x in s;
    SeqItem(t, x);
    var u := MoveToTop(t, x);
    MoveToTopKeeps(t, x);
    SplitAt(u, s, m);
  }

  lemma SplitAt<K>(u: Shape<K>, s: seq<Item<K>>, m: nat)
    requires u.Bin? && Distinct(u) && Seq(u) == s && m < |s| && u.it == s[m]
    ensures Seq(u.l) == s[..m] && Seq(u.r) == s[m+1..]
  {
    DistinctSeq(u);
    var n := |Seq(u.l)|;
    assert s[n] == u.it;
    assert n == m;
    assert s[..m] == Seq(u.l);
  }

  /** The number of rotations a rebalance does. */
  ghost function RebalanceCost<K>(t: Shape<K>): nat
    requires Distinct(t)
    decreases |Seq(t)|
  {
    if t.Nil? then 0 else
      MedianToTop(t);
      var u := MoveToTop(t, Median(t));
      Depth(t, Median(t)) + RebalanceCost(u.l) + RebalanceCost(u.r)
  }

  /** What is left to do after the median of `t` has reached the top. */
  lemma AfterSplay<K>(t: Shape<K>)
    requires t.Bin? && Distinct(t)
    ensures Median(t) in Items(t)
    ensures var u := MoveToTop(t, Median(t));
      && u.it == Median(t) && Distinct(u.l) && Distinct(u.r) && Items(u) == Items(t)
      && Size(u) == Size(t)
      && Balanced(Seq(t)) == Bin(Balanced(Seq(u.l)), u.it, Balanced(Seq(u.r)))
      && RebalanceCost(t) == Depth(t, u.it) + RebalanceCost(u.l) + RebalanceCost(u.r)
  {
    MedianToTop(t);
    var u := MoveToTop(t, Median(t));
    MoveToTopKeeps(t, u.it);
    SizeSeq(t); SizeSeq(u);
  }

  /** Rebalancing a halved tree takes no rotation. */
  lemma {:induction false} HalvedCostsNothing<K>(t: Shape<K>)
    requires Distinct(t) && Halved(t)
    ensures RebalanceCost(t) == 0
  {
    if t.Bin? {
      assert Median(t) == t.it;
      HalvedCostsNothing(t.l);
      HalvedCostsNothing(t.r);
    }
  }

  lemma HalvesDiffer<K>(s: seq<Item<K>>, m: nat)
    requires NoDup(s) && m < |s|
    ensures NoDup(s[..m]) && NoDup(s[m+1..]) && s[m] !in s[..m] && s[m] !in s[m+1..]
    ensures forall x :: x in s[..m] ==> x in s && x !in s[m+1..]
    ensures forall x :: x in s[m+1..] ==> x in s
  {
  }

  lemma {:induction false} BalancedDistinct<K>(s: seq<Item<K>>)
    requires NoDup(s)
    ensures Distinct(Balanced(s)) && forall x :: x in Items(Balanced(s)) ==> x in s
    decreases |s|
  {
    if s != [] {
      var m := |s| / 2;
      var a, b := s[..m], s[m+1..];
      HalvesDiffer(s, m);
      BalancedDistinct(a);
      BalancedDistinct(b);
      assert Balanced(s) == Bin(Balanced(a), s[m], Balanced(b));
    }
  }

  lemma HalvedBalance<K>(t: Shape<K>)
    requires Halved(t) && t.Bin?
    ensures Size(t) / 2 == Size(t.l)
  {
    SizeSeq(t);
    SizeSeq(t.l);
  }

  /** What a rebalance achieves: every subtree is split in half, a second rebalance does
      nothing, the root is in the middle, and the height is the least possible. */
  lemma RebalanceAchieves<K>(t: Shape<K>)
    requires Distinct(t)
    ensures var u := Balanced(Seq(t));
      && Halved(u) && Seq(u) == Seq(t) && Distinct(u) && RebalanceCost(u) == 0
      && (u.Bin? ==> Size(u) / 2 - Size(u.l) == 0 && Pow2(Height(u) - 1) <= |Seq(t)| < Pow2(Height(u)))
  {
    hide Balanced, Halved, Distinct, RebalanceCost, Height, Pow2, NoDup;
    var u := Balanced(Seq(t));
    BalancedSeq(Seq(t));
    HalvedIsBalanced(u);
    DistinctSeq(t);
    BalancedDistinct(Seq(t));
    HalvedCostsNothing(u);
    if u.Bin? {
      HalvedHeight(u);
      HalvedBalance(u);
    }
  }

  // ----- removal

  /** Hangs `r` below the last item of `l`. */
  ghost function Attach<K>(l: Shape<K>, r: Shape<K>): Shape<K> {
    if l.Nil? then r else Bin(l.l, l.it, Attach(l.r, r))
  }

  /** What takes the place of a removed item with subtrees `l` and `r`. */
  ghost function Join<K>(l: Shape<K>, r: Shape<K>): Shape<K> {
    if r.Nil? then l else Attach(l, r)
  }

  lemma {:induction false} AttachKeeps<K>(l: Shape<K>, r: Shape<K>)
    requires Distinct(l) && Distinct(r) && Items(l) !! Items(r)
    ensures Seq(Attach(l, r)) == Seq(l) + Seq(r)
    ensures Items(Attach(l, r)) == Items(l) + Items(r) && Distinct(Attach(l, r))
  {
    if l.Bin? {
      AttachKeeps(l.r, r);
      assert Seq(l.l) + [l.it] + (Seq(l.r) + Seq(r)) == Seq(l) + Seq(r);
    } else {
      assert [] + Seq(r) == Seq(r);
    }
  }

  lemma JoinKeeps<K>(l: Shape<K>, r: Shape<K>)
    requires Distinct(l) && Distinct(r) && Items(l) !! Items(r)
    ensures Seq(Join(l, r)) == Seq(l) + Seq(r)
    ensures Items(Join(l, r)) == Items(l) + Items(r) && Distinct(Join(l, r))
  {
    AttachKeeps(l, r);
    if r.Nil? { assert Seq(l) + [] == Seq(l); }
  }

  /** The last item in order. */
  ghost function LastItem<K>(t: Shape<K>): Item<K>
    requires t.Bin?
    ensures LastItem(t) in Items(t)
  {
    if t.r.Nil? then t.it else LastItem(t.r)
  }

  /** Hanging `r` below the last item of `l`, and `l` below `q`, gives a linked tree. */
  lemma {:induction false} AttachLinked<K>(m: Wiring<K>, n: Wiring<K>, l: Shape<K>, r: Shape<K>, p: Item?<K>, q: Item?<K>)
    requires l.Bin? && Distinct(l) && Linked(m, l, p) && Linked(n, r, LastItem(l))
    requires Items(l) <= m.Keys && Items(l) <= n.Keys
    requires forall x :: x in Items(l) ==>
      n[x] == Links(m[x].lhs, if x == LastItem(l) then Top(r) else m[x].rhs, if x == l.it then q else m[x].parent)
    ensures Linked(n, Attach(l, r), q)
  {
    LinkedFrame(m, n, l.l, l.it);
    if l.r.Bin? {
      AttachLinked(m, n, l.r, r, l.it, l.it);
    }
  }

  ghost function CtxDepth<K>(c: Ctx<K>): nat {
    if c.Hole? then 0 else 1 + CtxDepth(c.up)
  }

  lemma {:induction false} DepthPlug<K>(c: Ctx<K>, t: Shape<K>, x: Item<K>)
    requires x in Items(t) && Fit(c, t)
    ensures x in Items(Plug(c, t)) && Depth(Plug(c, t), x) == CtxDepth(c) + Depth(t, x)
  {
    match c
    case Hole =>
    case InL(up, it, r) => DepthPlug(up, Bin(t, it, r), x);
    case InR(up, l, it) => DepthPlug(up, Bin(l, it, t), x);
  }

  lemma DepthAtTop<K>(c: Ctx<K>, t: Shape<K>)
    requires t.Bin? && Distinct(Plug(c, t))
    ensures t.it in Items(Plug(c, t)) && Depth(Plug(c, t), t.it) == CtxDepth(c)
  {
    PlugDistinct(c, t);
    DepthPlug(c, t, t.it);
  }
}
