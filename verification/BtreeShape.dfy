/**
 The shape of an intrusive binary tree, as a value.

 `Item` is the node structure embedded in every element.  A `Shape` describes which
 items hang where; a `Ctx` describes a whole tree with one subtree taken out (the
 path from that subtree up to the root).  A `Wiring` records the pointers of the items
 at one moment; `Linked` and `Spine` say that they agree with a shape or a context.
 */
module BtreeShape {

  class Item<K> {
    const key: K
    var lhs: Item?<K>
    var rhs: Item?<K>
    var parent: Item?<K>

    constructor (key: K)
      ensures this.key == key && lhs == null && rhs == null && parent == null
    {
      this.key := key;
      lhs, rhs, parent := null, null, null;
    }
  }

  datatype Shape<K> = Nil | Bin(l: Shape<K>, it: Item<K>, r: Shape<K>)

  /** A tree with a hole: the hole is the left (`InL`) or right (`InR`) child of `it`. */
  datatype Ctx<K> =
    | Hole
    | InL(up: Ctx<K>, it: Item<K>, r: Shape<K>)
    | InR(up: Ctx<K>, l: Shape<K>, it: Item<K>)

  ghost function Plug<K>(c: Ctx<K>, t: Shape<K>): Shape<K> {
    match c
    case Hole => t
    case InL(up, it, r) => Plug(up, Bin(t, it, r))
    case InR(up, l, it) => Plug(up, Bin(l, it, t))
  }

  /** Puts context `d` into the hole of context `c`. */
  ghost function Compose<K>(c: Ctx<K>, d: Ctx<K>): Ctx<K> {
    match d
    case Hole => c
    case InL(up, it, r) => InL(Compose(c, up), it, r)
    case InR(up, l, it) => InR(Compose(c, up), l, it)
  }

  /** The items in order. */
  ghost function Seq<K>(t: Shape<K>): seq<Item<K>> {
    match t
    case Nil => []
    case Bin(l, it, r) => Seq(l) + [it] + Seq(r)
  }

  ghost function Size<K>(t: Shape<K>): nat {
    match t
    case Nil => 0
    case Bin(l, it, r) => Size(l) + 1 + Size(r)
  }

  ghost function Before<K>(c: Ctx<K>): seq<Item<K>> {
    match c
    case Hole => []
    case InL(up, it, r) => Before(up)
    case InR(up, l, it) => Before(up) + (Seq(l) + [it])
  }

  ghost function After<K>(c: Ctx<K>): seq<Item<K>> {
    match c
    case Hole => []
    case InL(up, it, r) => [it] + Seq(r) + After(up)
    case InR(up, l, it) => After(up)
  }

  /** The number of items before the hole. */
  ghost function Offset<K>(c: Ctx<K>): nat {
    match c
    case Hole => 0
    case InL(up, it, r) => Offset(up)
    case InR(up, l, it) => Offset(up) + Size(l) + 1
  }

  ghost function Items<K>(t: Shape<K>): set<Item<K>> {
    match t
    case Nil => {}
    case Bin(l, it, r) => Items(l) + {it} + Items(r)
  }

  ghost function CtxItems<K>(c: Ctx<K>): set<Item<K>> {
    match c
    case Hole => {}
    case InL(up, it, r) => CtxItems(up) + {it} + Items(r)
    case InR(up, l, it) => CtxItems(up) + {it} + Items(l)
  }

  function Top<K>(t: Shape<K>): Item?<K> {
    if t.Nil? then null else t.it
  }

  /** The item whose child is the hole, or null when the hole is the whole tree. */
  function Owner<K>(c: Ctx<K>): Item?<K> {
    if c.Hole? then null else c.it
  }

  ghost predicate Distinct<K>(t: Shape<K>) {
    match t
    case Nil => true
    case Bin(l, it, r) =>
      it !in Items(l) && it !in Items(r) && Items(l) !! Items(r) && Distinct(l) && Distinct(r)
  }

  ghost predicate CtxDistinct<K>(c: Ctx<K>) {
    match c
    case Hole => true
    case InL(up, it, r) =>
      && it !in Items(r) && it !in CtxItems(up) && Items(r) !! CtxItems(up)
      && Distinct(r) && CtxDistinct(up)
    case InR(up, l, it) =>
      && it !in Items(l) && it !in CtxItems(up) && Items(l) !! CtxItems(up)
      && Distinct(l) && CtxDistinct(up)
  }

  ghost predicate Fit<K>(c: Ctx<K>, t: Shape<K>) {
    Distinct(t) && CtxDistinct(c) && Items(t) !! CtxItems(c)
  }

  // ----- pointers

  datatype Links<K> = Links(lhs: Item?<K>, rhs: Item?<K>, parent: Item?<K>)

  type Wiring<K> = map<Item<K>, Links<K>>

  /** The pointers of some items as they are on the heap now. */
  ghost function Snap<K>(s: set<Item<K>>): Wiring<K>
    reads s
  {
    map x | x in s :: Links(x.lhs, x.rhs, x.parent)
  }

  /** The pointers of the items of `t` agree with `t`, and `p` is the parent of its top. */
  ghost predicate Linked<K>(m: Wiring<K>, t: Shape<K>, p: Item?<K>) {
    t.Bin? ==>
      && t.it in m && m[t.it] == Links(Top(t.l), Top(t.r), p)
      && Linked(m, t.l, t.it) && Linked(m, t.r, t.it)
  }

  /** The pointers of the items of `c` agree with `c`, the hole points to `hole`, and the
      root slot of the tree holds `top`. */
  ghost predicate Spine<K>(m: Wiring<K>, c: Ctx<K>, hole: Item?<K>, top: Item?<K>) {
    match c
    case Hole => top == hole
    case InL(up, it, r) =>
      it in m && m[it] == Links(hole, Top(r), Owner(up)) && Linked(m, r, it) && Spine(m, up, it, top)
    case InR(up, l, it) =>
      it in m && m[it] == Links(Top(l), hole, Owner(up)) && Linked(m, l, it) && Spine(m, up, it, top)
  }

  /** The pointers in `m` and the root slot `top` represent the tree `t`. */
  ghost predicate Represents<K>(m: Wiring<K>, top: Item?<K>, t: Shape<K>) {
    top == Top(t) && Distinct(t) && Linked(m, t, null)
  }

  ghost predicate Placed<K>(m: Wiring<K>, top: Item?<K>, c: Ctx<K>, t: Shape<K>) {
    Fit(c, t) && Spine(m, c, Top(t), top) && Linked(m, t, Owner(c))
  }

  ghost predicate Agree<K>(m: Wiring<K>, n: Wiring<K>, s: set<Item<K>>) {
    s <= m.Keys && s <= n.Keys && forall x :: x in s ==> m[x] == n[x]
  }

  lemma {:induction false} LinkedFrame<K>(m: Wiring<K>, n: Wiring<K>, t: Shape<K>, p: Item?<K>)
    requires Linked(m, t, p) && Agree(m, n, Items(t))
    ensures Linked(n, t, p)
  {
    if t.Bin? {
      LinkedFrame(m, n, t.l, t.it);
      LinkedFrame(m, n, t.r, t.it);
    }
  }

  /** A subtree whose inner pointers are untouched can hang below another parent. */
  lemma Reparent<K>(m: Wiring<K>, n: Wiring<K>, t: Shape<K>, p: Item?<K>, q: Item?<K>)
    requires Distinct(t) && Linked(m, t, p) && Agree(m, n, Items(t) - {Top(t)})
    requires t.Bin? ==> t.it in n && n[t.it] == m[t.it].(parent := q)
    ensures Linked(n, t, q)
  {
    if t.Bin? {
      LinkedFrame(m, n, t.l, t.it);
      LinkedFrame(m, n, t.r, t.it);
    }
  }

  lemma {:induction false} SpineFrame<K>(m: Wiring<K>, n: Wiring<K>, c: Ctx<K>, hole: Item?<K>, top: Item?<K>)
    requires Spine(m, c, hole, top) && Agree(m, n, CtxItems(c))
    ensures Spine(n, c, hole, top)
  {
    match c
    case Hole =>
    case InL(up, it, r) => SpineFrame(m, n, up, it, top); LinkedFrame(m, n, r, it);
    case InR(up, l, it) => SpineFrame(m, n, up, it, top); LinkedFrame(m, n, l, it);
  }

  /** `m` and `n` record the same items and differ at most at those of `s`. */
  ghost predicate Differ<K>(m: Wiring<K>, n: Wiring<K>, s: set<Item?<K>>) {
    m.Keys == n.Keys && forall x :: x in m && x !in s ==> m[x] == n[x]
  }

  /** The pointer at the hole is `hole` now, and the other links of its owner are the same. */
  ghost predicate Refilled<K>(m: Wiring<K>, n: Wiring<K>, c: Ctx<K>, top: Item?<K>, hole: Item?<K>, top': Item?<K>) {
    match c
    case Hole => top' == hole
    case InL(up, it, r) => top' == top && it in m && it in n && n[it] == m[it].(lhs := hole)
    case InR(up, l, it) => top' == top && it in m && it in n && n[it] == m[it].(rhs := hole)
  }

  lemma Refill<K>(m: Wiring<K>, n: Wiring<K>, c: Ctx<K>, old_hole: Item?<K>, top: Item?<K>, hole: Item?<K>, top': Item?<K>)
    requires CtxDistinct(c) && Spine(m, c, old_hole, top) && Refilled(m, n, c, top, hole, top')
    requires Agree(m, n, CtxItems(c) - {Owner(c)})
    ensures Spine(n, c, hole, top')
  {
    match c
    case Hole =>
    case InL(up, it, r) => SpineFrame(m, n, up, it, top); LinkedFrame(m, n, r, it);
    case InR(up, l, it) => SpineFrame(m, n, up, it, top); LinkedFrame(m, n, l, it);
  }

  // ----- contexts and sequences

  lemma Regroup<T>(a: seq<T>, b: seq<T>, m: seq<T>, d: seq<T>, e: seq<T>)
    ensures a + (b + m + d) + e == a + b + (m + d + e)
    ensures a + (b + m + d) + e == a + (b + m) + d + e
  {
  }

  lemma {:induction false} PlugSeq<K>(c: Ctx<K>, t: Shape<K>)
    ensures Seq(Plug(c, t)) == Before(c) + Seq(t) + After(c)
  {
    match c
    case Hole =>
    case InL(up, it, r) =>
      PlugSeq(up, Bin(t, it, r));
      Regroup(Before(up), Seq(t), [it], Seq(r), After(up));
    case InR(up, l, it) =>
      PlugSeq(up, Bin(l, it, t));
      Regroup(Before(up), Seq(l), [it], Seq(t), After(up));
  }

  lemma {:induction false} SizeSeq<K>(t: Shape<K>)
    ensures Size(t) == |Seq(t)|
  {
    if t.Bin? {
      SizeSeq(t.l);
      SizeSeq(t.r);
    }
  }

  lemma {:induction false} OffsetBefore<K>(c: Ctx<K>)
    ensures Offset(c) == |Before(c)|
  {
    match c
    case Hole =>
    case InL(up, it, r) => OffsetBefore(up);
    case InR(up, l, it) => OffsetBefore(up); SizeSeq(l);
  }

  lemma {:induction false} PlugItems<K>(c: Ctx<K>, t: Shape<K>)
    ensures Items(Plug(c, t)) == CtxItems(c) + Items(t)
  {
    match c
    case Hole =>
    case InL(up, it, r) => PlugItems(up, Bin(t, it, r));
    case InR(up, l, it) => PlugItems(up, Bin(l, it, t));
  }

  lemma {:induction false} PlugDistinct<K>(c: Ctx<K>, t: Shape<K>)
    ensures Distinct(Plug(c, t)) <==> Fit(c, t)
  {
    match c
    case Hole =>
    case InL(up, it, r) => PlugDistinct(up, Bin(t, it, r));
    case InR(up, l, it) => PlugDistinct(up, Bin(l, it, t));
  }

  lemma {:induction false} PlugCompose<K>(c: Ctx<K>, d: Ctx<K>, t: Shape<K>)
    ensures Plug(Compose(c, d), t) == Plug(c, Plug(d, t))
  {
    match d
    case Hole =>
    case InL(up, it, r) => PlugCompose(c, up, Bin(t, it, r));
    case InR(up, l, it) => PlugCompose(c, up, Bin(l, it, t));
  }

  /** A tree is represented exactly when any decomposition of it is in place. */
  lemma PlugPlaced<K>(m: Wiring<K>, top: Item?<K>, c: Ctx<K>, t: Shape<K>)
    ensures Represents(m, top, Plug(c, t)) <==> Placed(m, top, c, t)
  {
    PlugDistinct(c, t);
    PlugLinked(m, top, c, t);
  }

  lemma {:induction false} PlugLinked<K>(m: Wiring<K>, top: Item?<K>, c: Ctx<K>, t: Shape<K>)
    ensures top == Top(Plug(c, t)) && Linked(m, Plug(c, t), null)
       <==> Spine(m, c, Top(t), top) && Linked(m, t, Owner(c))
  {
    match c
    case Hole =>
    case InL(up, it, r) => PlugLinked(m, top, up, Bin(t, it, r));
    case InR(up, l, it) => PlugLinked(m, top, up, Bin(l, it, t));
  }

  lemma {:induction false} SeqItem<K>(t: Shape<K>, x: Item<K>)
    ensures x in Seq(t) <==> x in Items(t)
  {
    match t
    case Nil =>
    case Bin(l, it, r) => SeqItem(l, x); SeqItem(r, x);
  }

  ghost predicate NoDup<T>(s: seq<T>) {
    forall i, j :: 0 <= i < j < |s| ==> s[i] != s[j]
  }

  lemma {:induction false} DistinctSeq<K>(t: Shape<K>)
    requires Distinct(t)
    ensures NoDup(Seq(t))
  {
    match t
    case Nil =>
    case Bin(l, it, r) =>
      DistinctSeq(l); DistinctSeq(r);
      forall y | y in Seq(l) ensures y !in Seq(r) { SeqItem(l, y); SeqItem(r, y); }
      SeqItem(l, it); SeqItem(r, it);
      NoDupJoin(Seq(l), it, Seq(r));
  }

  lemma NoDupJoin<T>(a: seq<T>, x: T, b: seq<T>)
    requires NoDup(a) && NoDup(b) && x !in a && x !in b && forall y :: y in a ==> y !in b
    ensures NoDup(a + [x] + b)
  {
    var s := a + [x] + b;
    forall i, j | 0 <= i < j < |s|
      ensures s[i] != s[j]
    {
      if i < |a| { assert s[i] == a[i] && a[i] in a; }
      if j > |a| { assert s[j] == b[j - |a| - 1] && b[j - |a| - 1] in b; }
      if i > |a| { assert s[i] == b[i - |a| - 1]; }
    }
  }

  /** Every position of the sequence is a place in the tree. */
  lemma {:induction false} Locate<K>(t: Shape<K>, i: nat) returns (c: Ctx<K>, s: Shape<K>)
    requires i < |Seq(t)|
    ensures s.Bin? && Plug(c, s) == t && Offset(c) + Size(s.l) == i && s.it == Seq(t)[i]
  {
    SizeSeq(t.l);
    var n := |Seq(t.l)|;
    if i == n {
      c, s := Hole, t;
    } else if i < n {
      var d;
      var e := InL(Hole, t.it, t.r);
      d, s := Locate(t.l, i);
      c := Compose(e, d);
      PlugCompose(e, d, s);
      ComposeOffset(e, d);
    } else {
      var d;
      var e := InR(Hole, t.l, t.it);
      d, s := Locate(t.r, i - n - 1);
      c := Compose(e, d);
      PlugCompose(e, d, s);
      ComposeOffset(e, d);
    }
  }

  lemma {:induction false} ComposeOffset<K>(c: Ctx<K>, d: Ctx<K>)
    ensures Offset(Compose(c, d)) == Offset(c) + Offset(d)
  {
    match d
    case Hole =>
    case InL(up, it, r) => ComposeOffset(c, up);
    case InR(up, l, it) => ComposeOffset(c, up);
  }

  /** An item of a tree occurs at some place in it. */
  lemma {:induction false} PlaceOf<K>(t: Shape<K>, x: Item<K>) returns (c: Ctx<K>, s: Shape<K>)
    requires x in Items(t)
    ensures s.Bin? && s.it == x && Plug(c, s) == t
  {
    SeqItem(t, x);
    var i :| 0 <= i < |Seq(t)| && Seq(t)[i] == x;
    c, s := Locate(t, i);
  }
}
