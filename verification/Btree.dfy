/**
 The intrusive binary search tree on the heap.  Every method works through a slot: the
 root of the tree or a child link of an item.  The ghost field `shape` is the shape the
 pointers currently have.
 */
module Btree {
  import opened BtreeShape
  import opened BtreeBalance
  import opened BtreeOrder

  /** A place that holds a pointer to the top of a (sub)tree. */
  datatype Slot<K> = AtTop | AtLhs(owner: Item<K>) | AtRhs(owner: Item<K>)

  function SlotOf<K>(c: Ctx<K>): Slot<K> {
    match c
    case Hole => AtTop
    case InL(_, it, _) => AtLhs(it)
    case InR(_, _, it) => AtRhs(it)
  }

  /** The item at position `i` in order, or null past either end. */
  function Nth<K>(s: seq<Item<K>>, i: int): Item?<K> {
    if 0 <= i < |s| then s[i] else null
  }

  /** `x` is at position `p` and, the end included, nowhere else. */
  ghost predicate OnlyAt<K>(s: seq<Item<K>>, p: nat, x: Item?<K>) {
    p <= |s| && Nth(s, p) == x && forall i :: 0 <= i <= |s| && Nth(s, i) == x ==> i == p
  }

  lemma IsAt<K>(s: seq<Item<K>>, p: nat, x: Item?<K>, i: nat)
    requires OnlyAt(s, p, x) && i <= |s|
    ensures Nth(s, i) == x <==> i == p
  {
  }

  lemma NthOnly<K>(t: Shape<K>, p: nat)
    requires Distinct(t) && p <= |Seq(t)|
    ensures OnlyAt(Seq(t), p, Nth(Seq(t), p))
  {
    DistinctSeq(t);
  }

  /** The items of a subtree are at the positions from Offset(c) on; the owner of its slot
      is next to them. */
  lemma InPlace<K>(c: Ctx<K>, t: Shape<K>)
    ensures var s, n := Seq(Plug(c, t)), Offset(c);
      && n + Size(t) <= |s|
      && (c.Hole? ==> n == 0 && |s| == Size(t))
      && (c.InL? ==> Nth(s, n + Size(t)) == c.it)
      && (c.InR? ==> 0 < n && Nth(s, n - 1) == c.it)
  {
    PlugSeq(c, t);
    SizeSeq(t);
    OffsetBefore(c);
  }

  lemma ItemInPlace<K>(c: Ctx<K>, t: Shape<K>, k: nat)
    requires k < |Seq(t)|
    ensures Nth(Seq(Plug(c, t)), Offset(c) + k) == Seq(t)[k]
  {
    PlugSeq(c, t);
    OffsetBefore(c);
    SliceAt(Before(c), Seq(t), After(c), k);
  }

  lemma SliceAt<T>(a: seq<T>, b: seq<T>, d: seq<T>, k: nat)
    requires k < |b|
    ensures (a + b + d)[|a| + k] == b[k]
  {
  }

  lemma TopPlace<K>(c: Ctx<K>, t: Shape<K>)
    requires t.Bin?
    ensures Nth(Seq(Plug(c, t)), Offset(c) + Size(t.l)) == t.it
  {
    SizeSeq(t.l);
    ItemInPlace(c, t, Size(t.l));
  }

  lemma MedianPlace<K>(c: Ctx<K>, t: Shape<K>)
    requires t.Bin?
    ensures Nth(Seq(Plug(c, t)), Offset(c) + Size(t) / 2) == Median(t)
  {
    hide Plug, Offset, Nth;
    SizeSeq(t);
    ItemInPlace(c, t, Size(t) / 2);
  }

  /** The pointer writes of a right rotation at the slot of `c`, which holds `x`. */
  ghost predicate TurnedRight<K>(m: Wiring<K>, top: Item?<K>, n: Wiring<K>, top': Item?<K>, c: Ctx<K>, x: Item<K>) {
    && x in m && m[x].lhs != null && m[x].lhs in m
    && var y, z := m[x].lhs, m[m[x].lhs].rhs;
    && Differ(m, n, {x, y, z, Owner(c)}) && Refilled(m, n, c, top, y, top')
    && n[x] == Links(z, m[x].rhs, y)
    && n[y] == Links(m[y].lhs, x, m[x].parent)
    && (z != null ==> z in m && n[z] == m[z].(parent := x))
  }

  ghost predicate TurnedLeft<K>(m: Wiring<K>, top: Item?<K>, n: Wiring<K>, top': Item?<K>, c: Ctx<K>, x: Item<K>) {
    && x in m && m[x].rhs != null && m[x].rhs in m
    && var y, z := m[x].rhs, m[m[x].rhs].lhs;
    && Differ(m, n, {x, y, z, Owner(c)}) && Refilled(m, n, c, top, y, top')
    && n[x] == Links(m[x].lhs, z, y)
    && n[y] == Links(x, m[y].rhs, m[x].parent)
    && (z != null ==> z in m && n[z] == m[z].(parent := x))
  }

  /** The pointers after a right rotation represent the rotated tree. */
  lemma RotatedRight<K>(m: Wiring<K>, top: Item?<K>, n: Wiring<K>, top': Item?<K>, c: Ctx<K>, t: Shape<K>)
    requires Represents(m, top, Plug(c, t)) && m.Keys == Items(Plug(c, t)) && t.Bin? && t.l.Bin?
    requires TurnedRight(m, top, n, top', c, t.it)
    ensures Represents(n, top', Plug(c, RotR(t))) && Items(Plug(c, RotR(t))) == Items(Plug(c, t))
  {
    hide Plug, Seq, Spine, CtxDistinct;
    PlugPlaced(m, top, c, t);
    PlugItems(c, t);
    var l := t.l;
    var a, b, d := l.l, l.r, t.r;
    assert Linked(m, l, t.it) && Distinct(l);
    assert Items(t) == Items(l) + {t.it} + Items(d) && Items(l) == Items(a) + {l.it} + Items(b);
    assert Owner(c) != null ==> Owner(c) in CtxItems(c);
    assert b.Bin? ==> b.it in Items(b);
    LinkedFrame(m, n, a, l.it);
    LinkedFrame(m, n, d, t.it);
    Reparent(m, n, b, l.it, t.it);
    assert Linked(n, Bin(b, t.it, d), l.it);
    Refill(m, n, c, t.it, top, l.it, top');
    RotRKeeps(t);
    PlugItems(c, RotR(t));
    PlugPlaced(n, top', c, RotR(t));
  }

  lemma RotatedLeft<K>(m: Wiring<K>, top: Item?<K>, n: Wiring<K>, top': Item?<K>, c: Ctx<K>, t: Shape<K>)
    requires Represents(m, top, Plug(c, t)) && m.Keys == Items(Plug(c, t)) && t.Bin? && t.r.Bin?
    requires TurnedLeft(m, top, n, top', c, t.it)
    ensures Represents(n, top', Plug(c, RotL(t))) && Items(Plug(c, RotL(t))) == Items(Plug(c, t))
  {
    hide Plug, Seq, Spine, CtxDistinct;
    PlugPlaced(m, top, c, t);
    PlugItems(c, t);
    var r := t.r;
    var a, b, d := r.r, r.l, t.l;
    assert Linked(m, r, t.it) && Distinct(r);
    assert Items(t) == Items(d) + {t.it} + Items(r) && Items(r) == Items(b) + {r.it} + Items(a);
    assert Owner(c) != null ==> Owner(c) in CtxItems(c);
    assert b.Bin? ==> b.it in Items(b);
    LinkedFrame(m, n, a, r.it);
    LinkedFrame(m, n, d, t.it);
    Reparent(m, n, b, r.it, t.it);
    assert Linked(n, Bin(d, t.it, b), r.it);
    Refill(m, n, c, t.it, top, r.it, top');
    RotLKeeps(t);
    PlugItems(c, RotL(t));
    PlugPlaced(n, top', c, RotL(t));
  }

  /** Before a right rotation, the items it writes are different items of the tree. */
  ghost predicate CanTurnRight<K>(m: Wiring<K>, top: Item?<K>, c: Ctx<K>, x: Item<K>) {
    && HoleIs(m, top, c, x) && x in m && m[x].lhs != null && m[x].lhs in m
    && var y, z := m[x].lhs, m[m[x].lhs].rhs;
    && x != y && (z != null ==> z in m && z != x && z != y && z != Owner(c))
    && x != Owner(c) && y != Owner(c)
  }

  ghost predicate CanTurnLeft<K>(m: Wiring<K>, top: Item?<K>, c: Ctx<K>, x: Item<K>) {
    && HoleIs(m, top, c, x) && x in m && m[x].rhs != null && m[x].rhs in m
    && var y, z := m[x].rhs, m[m[x].rhs].lhs;
    && x != y && (z != null ==> z in m && z != x && z != y && z != Owner(c))
    && x != Owner(c) && y != Owner(c)
  }

  lemma BeforeRight<K>(m: Wiring<K>, top: Item?<K>, c: Ctx<K>, t: Shape<K>)
    requires Represents(m, top, Plug(c, t)) && m.Keys == Items(Plug(c, t)) && t.Bin?
    ensures HoleIs(m, top, c, t.it) && t.it in m && m[t.it].lhs == Top(t.l)
    ensures t.l.Bin? ==> CanTurnRight(m, top, c, t.it)
  {
    PlugPlaced(m, top, c, t);
    PlugItems(c, t);
    assert Owner(c) != null ==> Owner(c) in CtxItems(c);
    if t.l.Bin? {
      assert Linked(m, t.l, t.it) && Distinct(t.l) && t.l.it in Items(t.l);
      if t.l.r.Bin? { assert t.l.r.it in Items(t.l.r) && t.l.r.it in Items(t.l); }
    }
  }

  lemma BeforeLeft<K>(m: Wiring<K>, top: Item?<K>, c: Ctx<K>, t: Shape<K>)
    requires Represents(m, top, Plug(c, t)) && m.Keys == Items(Plug(c, t)) && t.Bin?
    ensures HoleIs(m, top, c, t.it) && t.it in m && m[t.it].rhs == Top(t.r)
    ensures t.r.Bin? ==> CanTurnLeft(m, top, c, t.it)
  {
    PlugPlaced(m, top, c, t);
    PlugItems(c, t);
    assert Owner(c) != null ==> Owner(c) in CtxItems(c);
    if t.r.Bin? {
      assert Linked(m, t.r, t.it) && Distinct(t.r) && t.r.it in Items(t.r);
      if t.r.l.Bin? { assert t.r.l.it in Items(t.r.l) && t.r.l.it in Items(t.r); }
    }
  }

  /** The slot of `c` holds `hole`. */
  ghost predicate HoleIs<K>(m: Wiring<K>, top: Item?<K>, c: Ctx<K>, hole: Item?<K>) {
    match c
    case Hole => top == hole
    case InL(_, it, _) => it in m && m[it].lhs == hole
    case InR(_, _, it) => it in m && m[it].rhs == hole
  }

  /** The pointer writes that put the new item `y` in the place of `x`. */
  ghost predicate PlaceTaken<K>(m: Wiring<K>, top: Item?<K>, n: Wiring<K>, top': Item?<K>, c: Ctx<K>, x: Item<K>, y: Item<K>) {
    && x in m && y !in m && n.Keys == m.Keys + {y} && n[y] == m[x]
    && var l, r := m[x].lhs, m[x].rhs;
    && Refilled(m, n, c, top, y, top') && Agree(m, n, m.Keys - {l, r, Owner(c)})
    && (l != null ==> l in m && n[l] == m[l].(parent := y))
    && (r != null ==> r in m && n[r] == m[r].(parent := y))
  }

  /** Before a replacement, the items it writes are different items of the tree. */
  ghost predicate CanTakePlace<K>(m: Wiring<K>, top: Item?<K>, c: Ctx<K>, x: Item<K>) {
    && HoleIs(m, top, c, x) && x in m && m[x].parent == Owner(c) && x != Owner(c)
    && (c.InL? ==> m[c.it].rhs != x)
    && var l, r := m[x].lhs, m[x].rhs;
    && (l != null ==> l in m && l != x && l != Owner(c) && l != r)
    && (r != null ==> r in m && r != x && r != Owner(c))
  }

  lemma BeforeReplace<K>(m: Wiring<K>, top: Item?<K>, c: Ctx<K>, t: Shape<K>)
    requires Represents(m, top, Plug(c, t)) && m.Keys == Items(Plug(c, t)) && t.Bin?
    ensures CanTakePlace(m, top, c, t.it)
  {
    BeforeRight(m, top, c, t);
    PlugPlaced(m, top, c, t);
    PlugItems(c, t);
    assert Owner(c) != null ==> Owner(c) in CtxItems(c);
    assert t.it in Items(t);
    if t.l.Bin? { assert t.l.it in Items(t.l); }
    if t.r.Bin? { assert t.r.it in Items(t.r); }
    if c.InL? && c.r.Bin? { assert c.r.it in CtxItems(c); }
  }

  /** The pointers after a replacement represent the tree with the new item. */
  lemma Replaced<K>(m: Wiring<K>, top: Item?<K>, n: Wiring<K>, top': Item?<K>, c: Ctx<K>, t: Shape<K>, y: Item<K>)
    requires Represents(m, top, Plug(c, t)) && m.Keys == Items(Plug(c, t)) && t.Bin?
    requires PlaceTaken(m, top, n, top', c, t.it, y)
    ensures Represents(n, top', Plug(c, Bin(t.l, y, t.r)))
    ensures Items(Plug(c, Bin(t.l, y, t.r))) == Items(Plug(c, t)) + {y} - {t.it}
  {
    PlugPlaced(m, top, c, t);
    PlugItems(c, t);
    PlugItems(c, Bin(t.l, y, t.r));
    ReplacedInPlace(m, top, n, top', c, t, y);
    PlugPlaced(n, top', c, Bin(t.l, y, t.r));
  }

  lemma ReplacedInPlace<K>(m: Wiring<K>, top: Item?<K>, n: Wiring<K>, top': Item?<K>, c: Ctx<K>, t: Shape<K>, y: Item<K>)
    requires Placed(m, top, c, t) && m.Keys == CtxItems(c) + Items(t) && t.Bin?
    requires PlaceTaken(m, top, n, top', c, t.it, y)
    ensures Placed(n, top', c, Bin(t.l, y, t.r))
  {
    assert Owner(c) != null ==> Owner(c) in CtxItems(c);
    assert t.l.Bin? ==> t.l.it in Items(t.l);
    assert t.r.Bin? ==> t.r.it in Items(t.r);
    Reparent(m, n, t.l, t.it, y);
    Reparent(m, n, t.r, t.it, y);
    Refill(m, n, c, t.it, top, y, top');
  }

  /** The pointer writes that hang the detached item `y` into the empty slot of `c`. */
  ghost predicate HungUp<K>(m: Wiring<K>, top: Item?<K>, n: Wiring<K>, top': Item?<K>, c: Ctx<K>, y: Item<K>) {
    && y !in m && n.Keys == m.Keys + {y}
    && Refilled(m, n, c, top, y, top') && Agree(m, n, m.Keys - {Owner(c)})
  }

  /** An item that has been hung into an empty slot belongs to the tree exactly if it has no
      children and its parent link is right. */
  lemma Planted<K>(m: Wiring<K>, top: Item?<K>, n: Wiring<K>, top': Item?<K>, c: Ctx<K>, y: Item<K>)
    requires Represents(m, top, Plug(c, Nil)) && m.Keys == Items(Plug(c, Nil))
    requires HungUp(m, top, n, top', c, y)
    ensures Represents(n, top', Plug(c, Bin(Nil, y, Nil))) <==> n[y] == Links(null, null, Owner(c))
    ensures Items(Plug(c, Bin(Nil, y, Nil))) == Items(Plug(c, Nil)) + {y} && Distinct(Plug(c, Bin(Nil, y, Nil)))
  {
    PlugPlaced(m, top, c, Nil);
    PlugDistinct(c, Bin(Nil, y, Nil));
    PlugItems(c, Nil);
    PlugItems(c, Bin(Nil, y, Nil));
    Refill(m, n, c, null, top, y, top');
    assert Fit(c, Bin(Nil, y, Nil));
    assert Linked(n, Bin(Nil, y, Nil), Owner(c)) <==> n[y] == Links(null, null, Owner(c));
    PlugPlaced(n, top', c, Bin(Nil, y, Nil));
  }

  /** The pointer writes that replace `x` by its only child, or by nothing. */
  ghost predicate CutOne<K>(m: Wiring<K>, top: Item?<K>, n: Wiring<K>, top': Item?<K>, c: Ctx<K>, x: Item<K>, child: Item?<K>) {
    && Refilled(m, n, c, top, child, top') && Differ(m, n, {x, child, Owner(c)})
    && (child != null ==> child in m && n[child] == m[child].(parent := Owner(c)))
  }

  /** The pointer writes that hang the right subtree of `x` below the last item of its left
      subtree and put the left subtree in the place of `x`. */
  ghost predicate CutTwo<K>(m: Wiring<K>, top: Item?<K>, n: Wiring<K>, top': Item?<K>, c: Ctx<K>, x: Item<K>, last: Item<K>) {
    && x in m && m[x].lhs != null && m[x].rhs != null && m[x].lhs in m && m[x].rhs in m && last in m
    && var l, r := m[x].lhs, m[x].rhs;
    && Refilled(m, n, c, top, l, top') && Differ(m, n, {x, l, r, last, Owner(c)})
    && n[r] == m[r].(parent := last)
    && n[last] == Links(m[last].lhs, r, if last == l then Owner(c) else m[last].parent)
    && (l != last ==> n[l] == m[l].(parent := Owner(c)))
  }

  ghost predicate Unhooked<K>(m: Wiring<K>, top: Item?<K>, n: Wiring<K>, top': Item?<K>, c: Ctx<K>, x: Item<K>, last: Item?<K>) {
    && x in m
    && var l, r := m[x].lhs, m[x].rhs;
    if l == null then CutOne(m, top, n, top', c, x, r)
    else if r == null then CutOne(m, top, n, top', c, x, l)
    else last != null && CutTwo(m, top, n, top', c, x, last)
  }

  ghost predicate CanUnhook<K>(m: Wiring<K>, top: Item?<K>, c: Ctx<K>, x: Item<K>, last: Item?<K>) {
    && CanTakePlace(m, top, c, x)
    && (m[x].lhs != null && m[x].rhs != null ==>
      last != null && last in m && last != x && last != m[x].rhs && last != Owner(c))
  }

  lemma BeforeUnhook<K>(m: Wiring<K>, top: Item?<K>, c: Ctx<K>, t: Shape<K>, last: Item?<K>)
    requires Represents(m, top, Plug(c, t)) && m.Keys == Items(Plug(c, t)) && t.Bin?
    requires t.l.Bin? ==> last == LastItem(t.l)
    ensures CanUnhook(m, top, c, t.it, last)
  {
    BeforeReplace(m, top, c, t);
    PlugPlaced(m, top, c, t);
    PlugItems(c, t);
    assert Owner(c) != null ==> Owner(c) in CtxItems(c);
    assert t.r.Bin? ==> t.r.it in Items(t.r);
  }

  /** The pointers after a removal represent the tree without the item. */
  lemma Removed<K>(m: Wiring<K>, top: Item?<K>, n: Wiring<K>, top': Item?<K>, c: Ctx<K>, t: Shape<K>, last: Item?<K>)
    requires Represents(m, top, Plug(c, t)) && m.Keys == Items(Plug(c, t)) && t.Bin?
    requires t.l.Bin? ==> last == LastItem(t.l)
    requires Unhooked(m, top, n, top', c, t.it, last)
    ensures Represents(n, top', Plug(c, Join(t.l, t.r)))
    ensures Items(Plug(c, Join(t.l, t.r))) == Items(Plug(c, t)) - {t.it}
  {
    PlugPlaced(m, top, c, t);
    if t.l.Bin? && t.r.Bin? {
      RemovedTwo(m, top, n, top', c, t);
    } else {
      RemovedOne(m, top, n, top', c, t);
    }
  }

  lemma RemovedOne<K>(m: Wiring<K>, top: Item?<K>, n: Wiring<K>, top': Item?<K>, c: Ctx<K>, t: Shape<K>)
    requires Represents(m, top, Plug(c, t)) && m.Keys == Items(Plug(c, t)) && t.Bin? && (t.l.Nil? || t.r.Nil?)
    requires CutOne(m, top, n, top', c, t.it, if t.l.Nil? then Top(t.r) else Top(t.l))
    ensures Represents(n, top', Plug(c, Join(t.l, t.r)))
    ensures Items(Plug(c, Join(t.l, t.r))) == Items(Plug(c, t)) - {t.it}
  {
    PlugPlaced(m, top, c, t);
    PlugItems(c, t);
    var u := if t.l.Nil? then t.r else t.l;
    assert Join(t.l, t.r) == u;
    PlugItems(c, u);
    assert Owner(c) != null ==> Owner(c) in CtxItems(c);
    assert u.Bin? ==> u.it in Items(u);
    Reparent(m, n, u, t.it, Owner(c));
    Refill(m, n, c, t.it, top, Top(u), top');
    PlugPlaced(n, top', c, u);
  }

  lemma RemovedTwo<K>(m: Wiring<K>, top: Item?<K>, n: Wiring<K>, top': Item?<K>, c: Ctx<K>, t: Shape<K>)
    requires Represents(m, top, Plug(c, t)) && m.Keys == Items(Plug(c, t)) && t.Bin? && t.l.Bin? && t.r.Bin?
    requires CutTwo(m, top, n, top', c, t.it, LastItem(t.l))
    ensures Represents(n, top', Plug(c, Join(t.l, t.r)))
    ensures Items(Plug(c, Join(t.l, t.r))) == Items(Plug(c, t)) - {t.it}
  {
    PlugPlaced(m, top, c, t);
    PlugItems(c, t);
    JoinKeeps(t.l, t.r);
    PlugItems(c, Join(t.l, t.r));
    RemovedTwoInPlace(m, top, n, top', c, t);
    PlugPlaced(n, top', c, Join(t.l, t.r));
  }

  lemma RemovedTwoInPlace<K>(m: Wiring<K>, top: Item?<K>, n: Wiring<K>, top': Item?<K>, c: Ctx<K>, t: Shape<K>)
    requires Placed(m, top, c, t) && m.Keys == CtxItems(c) + Items(t) && t.Bin? && t.l.Bin? && t.r.Bin?
    requires CutTwo(m, top, n, top', c, t.it, LastItem(t.l))
    ensures Placed(n, top', c, Join(t.l, t.r))
  {
    var l, r, last := t.l, t.r, LastItem(t.l);
    hide Distinct, Fit;
    JoinKeeps(l, r);
    assert Owner(c) != null ==> Owner(c) in CtxItems(c);
    assert l.it in Items(l) && r.it in Items(r);
    LastPointsNowhere(m, l, t.it);
    Reparent(m, n, r, t.it, last);
    AttachLinked(m, n, l, r, t.it, Owner(c));
    Refill(m, n, c, t.it, top, l.it, top');
  }

  lemma {:induction false} LastPointsNowhere<K>(m: Wiring<K>, t: Shape<K>, p: Item?<K>)
    requires t.Bin? && Linked(m, t, p)
    ensures LastItem(t) in m && m[LastItem(t)].rhs == null
  {
    if t.r.Bin? { LastPointsNowhere(m, t.r, t.it); }
  }

  lemma {:induction false} LastInOrder<K>(t: Shape<K>)
    requires t.Bin?
    ensures 0 < |Seq(t)| && Seq(t)[|Seq(t)| - 1] == LastItem(t)
  {
    if t.r.Bin? { LastInOrder(t.r); }
  }

  /** The pointers of fewer items represent a tree just as well, if all its items are there. */
  lemma Represented<K>(n: Wiring<K>, m: Wiring<K>, top: Item?<K>, t: Shape<K>)
    requires Represents(n, top, t) && Agree(n, m, Items(t))
    ensures Represents(m, top, t)
  {
    LinkedFrame(n, m, t, null);
  }

  class Tree<K(!new)> {
    var top: Item?<K>
    ghost var shape: Shape<K>

    constructor ()
      ensures Valid() && shape == Nil
    {
      top, shape := null, Nil;
    }

    ghost function Wires(): Wiring<K>
      reads this, Items(shape)
    {
      Snap(Items(shape))
    }

    ghost predicate Valid()
      reads this, Items(shape)
    {
      Represents(Wires(), top, shape)
    }

    function Load(slot: Slot<K>): Item?<K>
      reads this, if slot.AtTop? then {} else {slot.owner}
    {
      match slot
      case AtTop => top
      case AtLhs(o) => o.lhs
      case AtRhs(o) => o.rhs
    }

    /** The pointer writes of a right rotation. */
    method TurnRight(slot: Slot<K>, ghost c: Ctx<K>, ghost s: set<Item<K>>)
      requires slot == SlotOf(c) && Load(slot) != null && CanTurnRight(Snap(s), top, c, Load(slot))
      modifies this`top, s
      ensures TurnedRight(old(Snap(s)), old(top), Snap(s), top, c, old(Load(slot)))
    {
      var item := Load(slot);
      var pivot := item.lhs;
      pivot.parent := item.parent;
      item.parent := pivot;
      match slot {
        case AtTop => top := pivot;
        case AtLhs(owner) => owner.lhs := pivot;
        case AtRhs(owner) => owner.rhs := pivot;
      }
      var inner := pivot.rhs;
      if inner != null {
        inner.parent := item;
      }
      item.lhs := inner;
      pivot.rhs := item;
    }

    method RotateRight(slot: Slot<K>, ghost c: Ctx<K>, ghost t: Shape<K>)
      requires Valid() && shape == Plug(c, t) && slot == SlotOf(c)
      modifies this, Items(shape)
      ensures Valid() && shape == Plug(c, RotR(t)) && Items(shape) == old(Items(shape))
    {
      ghost var m, oldTop := Wires(), top;
      ReadSlot(c, t);
      var item := Load(slot);
      if item != null && item.lhs != null {
        BeforeRight(m, oldTop, c, t);
        TurnRight(slot, c, Items(shape));
        RotatedRight(m, oldTop, Wires(), top, c, t);
        shape := Plug(c, RotR(t));
      }
    }

    /** The pointer writes of a left rotation. */
    method TurnLeft(slot: Slot<K>, ghost c: Ctx<K>, ghost s: set<Item<K>>)
      requires slot == SlotOf(c) && Load(slot) != null && CanTurnLeft(Snap(s), top, c, Load(slot))
      modifies this`top, s
      ensures TurnedLeft(old(Snap(s)), old(top), Snap(s), top, c, old(Load(slot)))
    {
      var item := Load(slot);
      var pivot := item.rhs;
      pivot.parent := item.parent;
      item.parent := pivot;
      match slot {
        case AtTop => top := pivot;
        case AtLhs(owner) => owner.lhs := pivot;
        case AtRhs(owner) => owner.rhs := pivot;
      }
      var inner := pivot.lhs;
      if inner != null {
        inner.parent := item;
      }
      item.rhs := inner;
      pivot.lhs := item;
    }

    method RotateLeft(slot: Slot<K>, ghost c: Ctx<K>, ghost t: Shape<K>)
      requires Valid() && shape == Plug(c, t) && slot == SlotOf(c)
      modifies this, Items(shape)
      ensures Valid() && shape == Plug(c, RotL(t)) && Items(shape) == old(Items(shape))
    {
      ghost var m, oldTop := Wires(), top;
      ReadSlot(c, t);
      var item := Load(slot);
      if item != null && item.rhs != null {
        BeforeLeft(m, oldTop, c, t);
        TurnLeft(slot, c, Items(shape));
        RotatedLeft(m, oldTop, Wires(), top, c, t);
        shape := Plug(c, RotL(t));
      }
    }

    // ----- stepping

    /** What the slot of `c` holds, and the pointers of the item there. */
    lemma ReadSlot(c: Ctx<K>, t: Shape<K>)
      requires Valid() && shape == Plug(c, t)
      ensures !c.Hole? ==> c.it in Items(shape)
      ensures Load(SlotOf(c)) == Top(t)
      ensures t.Bin? ==>
        t.it in Items(shape) && t.it.lhs == Top(t.l) && t.it.rhs == Top(t.r) && t.it.parent == Owner(c)
    {
      PlugPlaced(Wires(), top, c, t);
      PlugItems(c, t);
      assert Owner(c) != null ==> Owner(c) in CtxItems(c);
      assert t.Bin? ==> t.it in Items(t);
    }

    /** Which child of its parent an item is. */
    lemma ReadSide(c: Ctx<K>, t: Shape<K>)
      requires Valid() && shape == Plug(c, t) && t.Bin?
      ensures c.InL? ==> c.it in Items(shape) && c.it.lhs == t.it && c.it.rhs != t.it
      ensures c.InR? ==> c.it in Items(shape) && c.it.rhs == t.it && c.it.lhs != t.it
    {
      PlugPlaced(Wires(), top, c, t);
      PlugItems(c, t);
      assert Owner(c) != null ==> Owner(c) in CtxItems(c);
      assert t.it in Items(t);
      if c.InL? && c.r.Bin? { assert c.r.it in CtxItems(c); }
      if c.InR? && c.l.Bin? { assert c.l.it in CtxItems(c); }
    }

    method First(item: Item?<K>, ghost c: Ctx<K>, ghost t: Shape<K>) returns (r: Item?<K>)
      requires Valid() && shape == Plug(c, t) && item == Top(t)
      ensures Valid() && r == if item == null then null else Nth(Seq(shape), Offset(c))
    {
      r := item;
      if r != null {
        ghost var d, s := c, t;
        ReadSlot(d, s);
        while r.lhs != null
          invariant Valid() && shape == Plug(d, s) && s.Bin? && r == s.it && r.lhs == Top(s.l)
          invariant Offset(d) == Offset(c)
          decreases s
        {
          r := r.lhs;
          d, s := InL(d, s.it, s.r), s.l;
          ReadSlot(d, s);
        }
        TopPlace(d, s);
      }
    }

    method Last(item: Item?<K>, ghost c: Ctx<K>, ghost t: Shape<K>) returns (r: Item?<K>)
      requires Valid() && shape == Plug(c, t) && item == Top(t)
      ensures Valid() && r == if item == null then null else Nth(Seq(shape), Offset(c) + Size(t) - 1)
    {
      r := item;
      if r != null {
        ghost var d, s := c, t;
        ReadSlot(d, s);
        while r.rhs != null
          invariant Valid() && shape == Plug(d, s) && s.Bin? && r == s.it && r.rhs == Top(s.r)
          invariant Offset(d) + Size(s) == Offset(c) + Size(t)
          decreases s
        {
          r := r.rhs;
          d, s := InR(d, s.l, s.it), s.r;
          ReadSlot(d, s);
        }
        TopPlace(d, s);
      }
    }

    method Next(item: Item?<K>, ghost i: int) returns (r: Item?<K>)
      requires Valid()
      requires item == null || item == Nth(Seq(shape), i)
      ensures Valid() && r == if item == null then null else Nth(Seq(shape), i + 1)
    {
      r := item;
      if item != null {
        ghost var c, s := Locate(shape, i);
        ReadSlot(c, s);
        ReadSide(c, s);
        if r.rhs != null {
          r := First(r.rhs, InR(c, s.l, s.it), s.r);
        } else {
          while r.parent != null && r.parent.rhs == r
            invariant Valid() && shape == Plug(c, s) && s.Bin? && r == s.it && r.parent == Owner(c)
            invariant (c.InL? ==> c.it.rhs != r) && (c.InR? ==> c.it.rhs == r)
            invariant Offset(c) + Size(s) == i + 1
            decreases c
          {
            r := r.parent;
            c, s := c.up, Bin(c.l, c.it, s);
            ReadSlot(c, s);
            ReadSide(c, s);
          }
          r := r.parent;
          InPlace(c, s);
        }
      }
    }

    method Prev(item: Item?<K>, ghost i: int) returns (r: Item?<K>)
      requires Valid()
      requires item == null || item == Nth(Seq(shape), i)
      ensures Valid() && r == if item == null then null else Nth(Seq(shape), i - 1)
    {
      r := item;
      if item != null {
        ghost var c, s := Locate(shape, i);
        ReadSlot(c, s);
        ReadSide(c, s);
        if r.lhs != null {
          r := Last(r.lhs, InL(c, s.it, s.r), s.l);
        } else {
          while r.parent != null && r.parent.lhs == r
            invariant Valid() && shape == Plug(c, s) && s.Bin? && r == s.it && r.parent == Owner(c)
            invariant (c.InR? ==> c.it.lhs != r) && (c.InL? ==> c.it.lhs == r)
            invariant Offset(c) == i
            decreases c
          {
            r := r.parent;
            c, s := c.up, Bin(s, c.it, c.r);
            ReadSlot(c, s);
            ReadSide(c, s);
          }
          r := r.parent;
          InPlace(c, s);
        }
      }
    }

    /** Stepping from the first item visits every item once, in order, and stops. */
    method Forward() returns (visited: seq<Item<K>>)
      requires Valid()
      ensures visited == Seq(shape) && NoDup(visited)
    {
      DistinctSeq(shape);
      InPlace(Hole, shape);
      ghost var whole, s := shape, Seq(shape);
      visited := [];
      var iter := First(top, Hole, shape);
      while iter != null
        invariant Valid() && shape == whole
        invariant |visited| <= |s| && visited == s[..|visited|] && iter == Nth(s, |visited|)
        decreases |s| - |visited|
      {
        visited := visited + [iter];
        iter := Next(iter, |visited| - 1);
      }
    }

    /** Stepping back from the last item visits every item once, in reverse order. */
    method Backward() returns (visited: seq<Item<K>>)
      requires Valid()
      ensures |visited| == |Seq(shape)|
      ensures forall i :: 0 <= i < |visited| ==> visited[i] == Seq(shape)[|visited| - 1 - i]
    {
      InPlace(Hole, shape);
      ghost var whole, s := shape, Seq(shape);
      visited := [];
      var iter := Last(top, Hole, shape);
      while iter != null
        invariant Valid() && shape == whole && |visited| <= |s|
        invariant forall i :: 0 <= i < |visited| ==> visited[i] == s[|s| - 1 - i]
        invariant iter == Nth(s, |s| - 1 - |visited|)
        decreases |s| - |visited|
      {
        visited := visited + [iter];
        iter := Prev(iter, |s| - |visited|);
      }
    }

    /** Counts the items of the subtree at `slot`. */
    method Count(slot: Slot<K>, ghost c: Ctx<K>, ghost t: Shape<K>) returns (count: nat)
      requires Valid() && shape == Plug(c, t) && slot == SlotOf(c)
      ensures count == Size(t)
    {
      ReadSlot(c, t);
      count := 0;
      var item := Load(slot);
      if item != null {
        ghost var whole, s, start, stop := shape, Seq(shape), Offset(c), Offset(c) + Size(t) - 1;
        ghost var i := start;
        assert stop <= |s| by { InPlace(c, t); }
        NthOnly(shape, stop);
        var iter := First(item, c, t);
        var end := Last(item, c, t);
        count := 1;
        while iter != end
          invariant Valid() && shape == whole && OnlyAt(s, stop, end)
          invariant i <= stop && iter == Nth(s, i) && count == i - start + 1
          decreases stop - i
        {
          count := count + 1;
          iter := Next(iter, i);
          i := i + 1;
        }
      }
    }

    /** The first item of a subtree, and the item after its last one. */
    method Range(node: Item?<K>, ghost c: Ctx<K>, ghost t: Shape<K>) returns (iter: Item?<K>, end: Item?<K>)
      requires Valid() && shape == Plug(c, t) && node == Top(t)
      ensures Valid() && (node == null ==> iter == null && end == null)
      ensures node != null ==>
        iter != null && iter == Nth(Seq(shape), Offset(c)) && OnlyAt(Seq(shape), Offset(c) + Size(t), end)
    {
      iter := First(node, c, t);
      var last := Last(node, c, t);
      end := Next(last, Offset(c) + Size(t) - 1);
      InPlace(c, t);
      NthOnly(shape, Offset(c) + Size(t));
      SizeSeq(t);
    }

    lemma BalanceStarts(c: Ctx<K>, t: Shape<K>)
      requires Valid() && shape == Plug(c, t) && t.Bin?
      ensures Offset(c) + Size(t) <= |Seq(shape)| && Size(t.l) < Size(t)
      ensures OnlyAt(Seq(shape), Offset(c) + Size(t.l), t.it)
    {
      InPlace(c, t);
      TopPlace(c, t);
      NthOnly(shape, Offset(c) + Size(t.l));
    }

    /** How far the top of a subtree is from the middle of its items. */
    method GetBalance(node: Item?<K>, ghost c: Ctx<K>, ghost t: Shape<K>) returns (balance: int)
      requires Valid() && shape == Plug(c, t) && node == Top(t)
      ensures balance == if t.Nil? then 0 else Size(t) / 2 - Size(t.l)
    {
      hide Valid, OnlyAt;
      var count, rootIndex := 0, 0;
      var iter, end := Range(node, c, t);
      ghost var whole, s, base, n := shape, Seq(shape), Offset(c), Size(t);
      ghost var middle := if t.Bin? then Size(t.l) else 0;
      if t.Bin? {
        BalanceStarts(c, t);
        IsAt(s, base + n, end, base);
      }
      while iter != end
        invariant Valid() && shape == whole
        invariant t.Bin? ==> OnlyAt(s, base + n, end) && OnlyAt(s, base + middle, node)
        invariant 0 <= count <= n && (t.Nil? ==> iter == end)
        invariant t.Bin? ==> iter == Nth(s, base + count) && base + n <= |s| && (iter == end <==> count == n)
        invariant rootIndex == if count > middle then middle else 0
        decreases n - count
      {
        IsAt(s, base + middle, node, base + count);
        if iter == node {
          rootIndex := count;
        }
        iter := Next(iter, base + count);
        count := count + 1;
        IsAt(s, base + n, end, base + count);
      }
      balance := count / 2 - rootIndex;
    }

    // ----- restructuring

    method Unbalance(slot: Slot<K>, ghost c: Ctx<K>, ghost t: Shape<K>) returns (count: nat)
      requires Valid() && shape == Plug(c, t) && slot == SlotOf(c)
      modifies this, Items(shape)
      ensures Valid() && shape == Plug(c, Chain(Seq(t))) && Items(shape) == old(Items(shape))
      ensures count == Size(t) - RightSpine(t)
      decreases Size(t)
    {
      count := 0;
      ReadSlot(c, t);
      var item := Load(slot);
      if item == null { return; }
      ghost var u := t;
      while item.lhs != null
        invariant Valid() && shape == Plug(c, u) && u.Bin? && item == u.it && item.lhs == Top(u.l)
        invariant Items(shape) == old(Items(shape)) && Seq(u) == Seq(t)
        invariant count + RightSpine(t) == RightSpine(u)
        decreases Size(u.l)
      {
        PlugItems(c, u);
        RotateRight(slot, c, u);
        RotRKeeps(u);
        PlugItems(c, RotR(u));
        u := RotR(u);
        ReadSlot(c, u);
        item := Load(slot);
        count := count + 1;
      }
      ReadSlot(InR(c, u.l, u.it), u.r);
      SizeSeq(t); SizeSeq(u);
      var more := Unbalance(AtRhs(item), InR(c, u.l, u.it), u.r);
      count := count + more;
      RightSpineBound(u);
      assert Seq(u) == [] + [u.it] + Seq(u.r);
      assert Seq(t)[1..] == Seq(u.r);
    }

    /** The links between `x`, its parent `w.it` and the slot of its parent. */
    lemma ReadParent(up: Ctx<K>, w: Shape<K>, x: Item<K>)
      requires Valid() && shape == Plug(up, w) && w.Bin? && (Top(w.l) == x || Top(w.r) == x)
      ensures w.it in Items(shape) && x in Items(shape) && x.parent == w.it && w.it.parent == Owner(up)
      ensures w.it.lhs == Top(w.l) && w.it.rhs == Top(w.r)
      ensures up.InL? ==> up.it in Items(shape) && up.it.lhs == w.it
      ensures up.InR? ==> up.it in Items(shape) && up.it.lhs != w.it
    {
      ReadSlot(up, w);
      ReadSide(up, w);
      if Top(w.l) == x {
        ReadSlot(InL(up, w.it, w.r), w.l);
      } else {
        ReadSlot(InR(up, w.l, w.it), w.r);
      }
    }

    /** One turn of the splay loop: a rotation at the slot of the parent of `x`. */
    method SplayStep(x: Item<K>, ghost c: Ctx<K>, ghost u: Shape<K>) returns (ghost v: Shape<K>)
      requires Valid() && shape == Plug(c, u) && x in Items(u) && x != Top(u)
      requires x.parent != null && x.parent.parent != null
      modifies this, Items(shape)
      ensures Valid() && shape == Plug(c, v) && Items(shape) == old(Items(shape))
      ensures x in Items(v) && Items(v) == Items(u)
      ensures MoveToTop(v, x) == MoveToTop(u, x) && Depth(u, x) == Depth(v, x) + 1
    {
      ghost var up, w;
      up, w, v := StepUp(c, u, x);
      ReadParent(up, w, x);
      PlugItems(c, u);
      PlugItems(c, v);
      var parent := x.parent;
      var pivot := if parent.parent.lhs == parent then AtLhs(parent.parent) else AtRhs(parent.parent);
      if parent.lhs == x {
        RotateRight(pivot, up, w);
      } else {
        RotateLeft(pivot, up, w);
      }
    }

    /** The rotation after the splay loop: `x` is a child of the top of the whole tree. */
    method SplayLastStep(x: Item<K>, ghost c: Ctx<K>, ghost u: Shape<K>)
      requires Valid() && shape == Plug(c, u) && x in Items(u) && x != Top(u)
      requires x.parent == null || x.parent.parent == null
      modifies this, Items(shape)
      ensures Valid() && shape == Plug(c, MoveToTop(u, x)) && Items(shape) == old(Items(shape))
      ensures Depth(u, x) == 1
    {
      ghost var up, w, v := StepUp(c, u, x);
      ReadParent(up, w, x);
      PlugItems(c, u);
      PlugItems(c, v);
      if top.lhs == x {
        RotateRight(AtTop, up, w);
      } else {
        RotateLeft(AtTop, up, w);
      }
    }

    /** Rotates `x` up to the slot. */
    method Splay(slot: Slot<K>, x: Item<K>, ghost c: Ctx<K>, ghost t: Shape<K>) returns (count: nat)
      requires Valid() && shape == Plug(c, t) && slot == SlotOf(c) && x in Items(t)
      modifies this, Items(shape)
      ensures Valid() && shape == Plug(c, MoveToTop(t, x)) && Items(shape) == old(Items(shape))
      ensures count == Depth(t, x)
    {
      count := 0;
      ghost var u := t;
      ReadSlot(c, u);
      PlugItems(c, t);
      while x != Load(slot) && x.parent != null && x.parent.parent != null
        invariant Valid() && shape == Plug(c, u) && x in Items(u) && Items(u) == Items(t) && Load(slot) == Top(u)
        invariant MoveToTop(u, x) == MoveToTop(t, x) && count + Depth(u, x) == Depth(t, x)
        invariant Items(shape) == old(Items(shape))
        decreases Depth(u, x)
      {
        count := count + 1;
        u := SplayStep(x, c, u);
        ReadSlot(c, u);
      }
      if Load(slot) != x {
        SplayLastStep(x, c, u);
        count := count + 1;
      }
    }

    /** Two iterators find the middle: one of them steps twice as fast as the other. */
    method FindMedian(top: Item?<K>, ghost c: Ctx<K>, ghost t: Shape<K>) returns (median: Item?<K>)
      requires Valid() && shape == Plug(c, t) && top == Top(t)
      ensures Valid() && median == if top == null then null else Nth(Seq(shape), Offset(c) + Size(t) / 2)
    {
      hide Valid, OnlyAt;
      ghost var whole, s, base, stop := shape, Seq(shape), Offset(c), Offset(c) + Size(t);
      InPlaceBound(c, t);
      var iter, end := Range(top, c, t);
      median := iter;
      if iter == null { return; }
      ghost var i, j := base, base;
      while iter != end
        invariant Valid() && shape == whole && OnlyAt(s, stop, end) && stop <= |s|
        invariant base <= j && i == 2 * j - base <= stop && iter == Nth(s, i) && median == Nth(s, j)
        decreases stop - i
      {
        IsAt(s, stop, end, i);
        iter := Next(iter, i);
        IsAt(s, stop, end, i + 1);
        if iter == end { break; }
        iter := Next(iter, i + 1);
        median := Next(median, j);
        i, j := i + 2, j + 1;
      }
      IsAt(s, stop, end, i);
      assert 2 * (j - base) <= Size(t) <= 2 * (j - base) + 1;
    }

    lemma InPlaceBound(c: Ctx<K>, t: Shape<K>)
      requires shape == Plug(c, t)
      ensures Offset(c) + Size(t) <= |Seq(shape)|
    {
      InPlace(c, t);
    }

    /** Rebuilds the subtree at `slot` so that every item is in the middle of its subtree. */
    method Rebalance(slot: Slot<K>, ghost c: Ctx<K>, ghost t: Shape<K>) returns (count: nat)
      requires Valid() && shape == Plug(c, t) && slot == SlotOf(c) && Distinct(t)
      modifies this, Items(shape)
      ensures Valid() && shape == Plug(c, Balanced(Seq(t))) && Items(shape) == old(Items(shape))
      ensures count == RebalanceCost(t)
      decreases Size(t), 1
    {
      ReadSlot(c, t);
      count := 0;
      var top := Load(slot);
      var median := FindMedian(top, c, t);
      if top == null { return; }
      MedianPlace(c, t);
      AfterSplay(t);
      count := Splay(slot, median, c, t);
      ghost var u := MoveToTop(t, Median(t));
      var more := RebalanceSides(slot, c, u);
      count := count + more;
    }

    method RebalanceSides(slot: Slot<K>, ghost c: Ctx<K>, ghost u: Shape<K>) returns (count: nat)
      requires Valid() && shape == Plug(c, u) && slot == SlotOf(c)
      requires u.Bin? && Distinct(u.l) && Distinct(u.r)
      modifies this, Items(shape)
      ensures Valid() && shape == Plug(c, Bin(Balanced(Seq(u.l)), u.it, Balanced(Seq(u.r))))
      ensures Items(shape) == old(Items(shape))
      ensures count == RebalanceCost(u.l) + RebalanceCost(u.r)
      decreases Size(u), 0
    {
      ReadSlot(c, u);
      var item := Load(slot);
      ghost var cl, cr := InL(c, u.it, u.r), InR(c, Balanced(Seq(u.l)), u.it);
      var left := Rebalance(AtLhs(item), cl, u.l);
      var right := Rebalance(AtRhs(item), cr, u.r);
      count := left + right;
    }

    // ----- searching

    /** A search tree for the order `cmp`. */
    ghost predicate Searchable(cmp: (K, K) -> int)
      reads this, Items(shape)
    {
      Valid() && TotalOrder(cmp) && Ordered(cmp, Seq(shape)) && KeysDiffer(Seq(shape))
    }

    /** The finite map that the tree stands for. */
    ghost function Contents(): map<K, Item<K>>
      requires KeysDiffer(Seq(shape))
      reads this
    {
      Dict(Seq(shape))
    }

    lemma Found(cmp: (K, K) -> int, x: Item<K>, key: K)
      requires Searchable(cmp) && x in Seq(shape) && cmp(x.key, key) == 0
      ensures key in Contents() && Contents()[key] == x
    {
    }

    /** Where the search for `key` goes from the top of t. */
    ghost predicate GoesTo(cmp: (K, K) -> int, key: K, c: Ctx<K>, t: Shape<K>, next: Slot<K>, d: Ctx<K>, u: Shape<K>) {
      && t.Bin? && cmp(t.it.key, key) != 0
      && if cmp(t.it.key, key) < 0 then next == AtRhs(t.it) && d == InR(c, t.l, t.it) && u == t.r
         else next == AtLhs(t.it) && d == InL(c, t.it, t.r) && u == t.l
    }

    /** The search for `key` stands at r, the top of t. */
    ghost predicate Looking(r: Item?<K>, key: K, cmp: (K, K) -> int, c: Ctx<K>, t: Shape<K>)
      reads this, Items(shape)
    {
      Searchable(cmp) && shape == Plug(c, t) && r == Top(t) && Searching(cmp, c, key)
    }

    lemma LooksOn(
      r: Item<K>, key: K, cmp: (K, K) -> int, c: Ctx<K>, t: Shape<K>, next: Slot<K>, d: Ctx<K>, u: Shape<K>
    )
      requires Looking(r, key, cmp, c, t) && GoesTo(cmp, key, c, t, next, d, u)
      ensures r in Items(shape) && Looking(if cmp(r.key, key) < 0 then r.rhs else r.lhs, key, cmp, d, u)
    {
      hide Valid, Ordered, KeysDiffer, Searching, TotalOrder;
      Descend(cmp, c, t, key);
      ReadSlot(c, t);
    }

    lemma LooksFrom(r: Item?<K>, key: K, cmp: (K, K) -> int, c: Ctx<K>, t: Shape<K>)
      requires Looking(r, key, cmp, c, t)
      ensures r != null ==> t.Bin? && t.it == r && r in Items(shape) && r in Seq(shape)
      ensures r == null ==> key !in Contents()
    {
      if r != null {
        ReadSlot(c, t);
        SeqItem(shape, t.it);
      } else {
        Missing(cmp, c, key);
      }
    }

    lemma LookingStarts(key: K, cmp: (K, K) -> int)
      requires Searchable(cmp)
      ensures Looking(top, key, cmp, Hole, shape)
    {
    }

    method Find(key: K, cmp: (K, K) -> int) returns (r: Item?<K>)
      requires Searchable(cmp)
      ensures Searchable(cmp) && r == if key in Contents() then Contents()[key] else null
    {
      hide Valid, Ordered, KeysDiffer, Dict, Searching, TotalOrder;
      LookingStarts(key, cmp);
      r := top;
      ghost var c, t := Hole, shape;
      while r != null
        invariant Looking(r, key, cmp, c, t)
        decreases t
      {
        LooksFrom(r, key, cmp, c, t);
        var result := cmp(r.key, key);
        if result == 0 {
          Found(cmp, r, key);
          return;
        }
        if result < 0 {
          LooksOn(r, key, cmp, c, t, AtRhs(r), InR(c, t.l, t.it), t.r);
          r := r.rhs;
          c, t := InR(c, t.l, t.it), t.r;
        } else {
          LooksOn(r, key, cmp, c, t, AtLhs(r), InL(c, t.it, t.r), t.l);
          r := r.lhs;
          c, t := InL(c, t.it, t.r), t.l;
        }
      }
      LooksFrom(r, key, cmp, c, t);
    }

    /** The pointer writes that put `item` in the place of `location`. */
    method TakePlace(slot: Slot<K>, location: Item<K>, item: Item<K>, ghost c: Ctx<K>, ghost s: set<Item<K>>)
      requires slot == SlotOf(c) && item !in s && CanTakePlace(Snap(s), top, c, location)
      modifies this`top, item, s
      ensures PlaceTaken(old(Snap(s)), old(top), Snap(s + {item}), top, c, location, item)
    {
      item.parent := location.parent;
      if item.parent != null {
        if location.parent.rhs == location {
          location.parent.rhs := item;
        } else {
          location.parent.lhs := item;
        }
      }
      item.lhs := location.lhs;
      if location.lhs != null {
        location.lhs.parent := item;
      }
      item.rhs := location.rhs;
      if location.rhs != null {
        location.rhs.parent := item;
      }
      match slot {
        case AtTop => top := item;
        case AtLhs(owner) => owner.lhs := item;
        case AtRhs(owner) => owner.rhs := item;
      }
    }

    /** Puts `item` where `location` was. */
    /** The item that gives up its place keeps its own links. */
    lemma KeepsLinks(m: Wiring<K>, n: Wiring<K>, oldTop: Item?<K>, c: Ctx<K>, t: Shape<K>, y: Item<K>)
      requires Represents(m, oldTop, Plug(c, t)) && m.Keys == Items(Plug(c, t)) && t.Bin?
      requires PlaceTaken(m, oldTop, n, top, c, t.it, y) && CanTakePlace(m, oldTop, c, t.it)
      ensures t.it in n && n[t.it] == m[t.it]
    {
    }

    method Replace(slot: Slot<K>, location: Item<K>, item: Item<K>, ghost c: Ctx<K>, ghost t: Shape<K>)
      requires Valid() && shape == Plug(c, t) && slot == SlotOf(c) && location == Top(t) && item !in Items(shape)
      modifies this, item, Items(shape)
      ensures Valid() && shape == Plug(c, Bin(t.l, item, t.r)) && Distinct(shape)
      ensures Items(shape) == old(Items(shape)) + {item} - {location}
      ensures location in old(Wires()) && LinksOf(location) == old(Wires())[location]
    {
      ghost var m, oldTop, s := Wires(), top, Items(shape);
      BeforeReplace(m, oldTop, c, t);
      TakePlace(slot, location, item, c, s);
      ghost var n := Snap(s + {item});
      KeepsLinks(m, n, oldTop, c, t, item);
      Replaced(m, oldTop, n, top, c, t, item);
      shape := Plug(c, Bin(t.l, item, t.r));
      Represented(n, Wires(), top, shape);
    }

    /** Hangs `item` into the empty slot of `c`. */
    method Plant(slot: Slot<K>, item: Item<K>, ghost c: Ctx<K>)
      requires Valid() && shape == Plug(c, Nil) && slot == SlotOf(c) && item !in Items(shape)
      modifies this, Items(shape)
      ensures shape == Plug(c, Bin(Nil, item, Nil)) && Items(shape) == old(Items(shape)) + {item} && Distinct(shape)
      ensures Valid() <==> item.lhs == null && item.rhs == null && item.parent == Owner(c)
    {
      ghost var m, oldTop, s := Wires(), top, Items(shape);
      ReadSlot(c, Nil);
      match slot {
        case AtTop => top := item;
        case AtLhs(owner) => owner.lhs := item;
        case AtRhs(owner) => owner.rhs := item;
      }
      ghost var n := Snap(s + {item});
      Planted(m, oldTop, n, top, c, item);
      shape := Plug(c, Bin(Nil, item, Nil));
      assert n == Wires();
    }

    /** The search for the place of `item`, which had the parent `p`, has come to `slot`, which holds the top of `t`. */
    ghost predicate Descending(item: Item<K>, cmp: (K, K) -> int, slot: Slot<K>, c: Ctx<K>, t: Shape<K>, p: Item?<K>)
      reads this, Items(shape), item, if slot.AtTop? then {} else {slot.owner}
    {
      && Searchable(cmp) && shape == Plug(c, t) && slot == SlotOf(c) && Load(slot) == Top(t)
      && Searching(cmp, c, item.key) && item !in Items(shape)
      && item.parent == if c.Hole? then p else Owner(c)
    }

    /** The wiring of the tree when `p` is the parent of `item`, whatever the item says now. */
    ghost function WiresWith(item: Item<K>, p: Item?<K>): Wiring<K>
      reads this, Items(shape), item
    {
      Wires()[item := Links(item.lhs, item.rhs, p)]
    }

    /**
     The search for `item`, which is in the tree already, has come to `slot`.  On its way it
     overwrites the parent of the item, which really is `p`.
     */
    ghost predicate Returning(item: Item<K>, cmp: (K, K) -> int, slot: Slot<K>, c: Ctx<K>, t: Shape<K>, p: Item?<K>)
      reads this, Items(shape), item
    {
      && item in Items(shape) && Represents(WiresWith(item, p), top, shape)
      && TotalOrder(cmp) && Ordered(cmp, Seq(shape)) && KeysDiffer(Seq(shape))
      && shape == Plug(c, t) && slot == SlotOf(c)
      && Searching(cmp, c, item.key)
      && item.parent == if c.Hole? then p else Owner(c)
    }

    lemma ReturnStarts(item: Item<K>, cmp: (K, K) -> int)
      requires Searchable(cmp) && item in Items(shape)
      ensures Returning(item, cmp, AtTop, Hole, shape, item.parent)
    {
      assert WiresWith(item, item.parent) == Wires();
    }

    /** What the search reads is what it would read if the parent were in place. */
    lemma ReadReturning(item: Item<K>, cmp: (K, K) -> int, slot: Slot<K>, c: Ctx<K>, t: Shape<K>, p: Item?<K>)
      requires Returning(item, cmp, slot, c, t, p)
      ensures !c.Hole? ==> c.it in Items(shape)
      ensures (slot.AtTop? || slot.owner in Items(shape)) && Load(slot) == Top(t)
      ensures t.Bin? ==> t.it in Items(shape)
      ensures t.Bin? && t.it == item ==> p == Owner(c)
    {
      PlugPlaced(WiresWith(item, p), top, c, t);
      PlugItems(c, t);
      assert Owner(c) != null ==> Owner(c) in CtxItems(c);
      assert t.Bin? ==> t.it in Items(t);
    }

    /** The search ends at the item itself, and then its parent is in place again. */
    lemma Returned(item: Item<K>, cmp: (K, K) -> int, slot: Slot<K>, c: Ctx<K>, t: Shape<K>, p: Item?<K>)
      requires Returning(item, cmp, slot, c, t, p) && (t.Bin? ==> t.it.key == item.key)
      ensures t.Bin? && t.it == item && Searchable(cmp)
    {
      SeqItem(shape, item);
      if t.Bin? {
        Descend(cmp, c, t, item.key);
        ReadReturning(item, cmp, slot, c, t, p);
        assert WiresWith(item, p) == Wires();
      } else {
        Missing(cmp, c, item.key);
      }
    }

    lemma NextDescending(
      item: Item<K>, cmp: (K, K) -> int, c: Ctx<K>, t: Shape<K>, p: Item?<K>, next: Slot<K>, d: Ctx<K>, u: Shape<K>
    )
      requires Searchable(cmp) && shape == Plug(c, t) && Searching(cmp, c, item.key)
      requires GoesTo(cmp, item.key, c, t, next, d, u)
      requires item !in Items(shape) && item.parent == t.it
      ensures Descending(item, cmp, next, d, u, p)
    {
      hide Valid, Ordered, KeysDiffer, Searching;
      Descend(cmp, c, t, item.key);
      ReadSlot(d, u);
    }

    lemma NextReturning(
      item: Item<K>, cmp: (K, K) -> int, c: Ctx<K>, t: Shape<K>, p: Item?<K>, next: Slot<K>, d: Ctx<K>, u: Shape<K>
    )
      requires item in Items(shape) && Represents(WiresWith(item, p), top, shape)
      requires TotalOrder(cmp) && Ordered(cmp, Seq(shape)) && KeysDiffer(Seq(shape))
      requires shape == Plug(c, t) && Searching(cmp, c, item.key) && item.parent == Top(t)
      requires GoesTo(cmp, item.key, c, t, next, d, u)
      ensures Returning(item, cmp, next, d, u, p)
    {
      hide Represents, Ordered, KeysDiffer, Searching, WiresWith;
      Descend(cmp, c, t, item.key);
    }

    /** One turn of the search loop of the insertion. */
    method StepDown(
      item: Item<K>, location: Item<K>, cmp: (K, K) -> int, slot: Slot<K>, ghost c: Ctx<K>, ghost t: Shape<K>, ghost p: Item?<K>
    ) returns (next: Slot<K>, ghost d: Ctx<K>, ghost u: Shape<K>)
      requires Descending(item, cmp, slot, c, t, p) || Returning(item, cmp, slot, c, t, p)
      requires location == Top(t) && cmp(location.key, item.key) != 0
      modifies item`parent
      ensures shape == old(shape)
      ensures old(Descending(item, cmp, slot, c, t, p)) ==> Descending(item, cmp, next, d, u, p)
      ensures old(Returning(item, cmp, slot, c, t, p)) ==> Returning(item, cmp, next, d, u, p)
      ensures u < t && CtxDepth(d) == CtxDepth(c) + 1
      ensures Plug(d, Inserted(cmp, item, u)) == Plug(c, Inserted(cmp, item, t))
      ensures item !in Items(shape) ==> Wires() == old(Wires())
    {
      hide Represents, Ordered, KeysDiffer, Searching, TotalOrder, Valid;
      ghost var w, present := WiresWith(item, p), item in Items(shape);
      item.parent := location;
      if cmp(location.key, item.key) < 0 {
        next := AtRhs(location);
        d, u := InR(c, t.l, t.it), t.r;
      } else {
        next := AtLhs(location);
        d, u := InL(c, t.it, t.r), t.l;
      }
      if present {
        assert WiresWith(item, p) == w;
        NextReturning(item, cmp, c, t, p, next, d, u);
      } else {
        NextDescending(item, cmp, c, t, p, next, d, u);
      }
    }

    /** The search is over: `item` takes the place of `victim`, or the empty slot. */
    method Settle(
      item: Item<K>, victim: Item?<K>, cmp: (K, K) -> int, slot: Slot<K>, ghost c: Ctx<K>, ghost t: Shape<K>, ghost p: Item?<K>
    ) returns (ghost u: Shape<K>)
      requires Descending(item, cmp, slot, c, t, p) && victim == Top(t) && (victim != null ==> victim.key == item.key)
      modifies this, item, Items(shape)
      ensures shape == Plug(c, u) && u == (if t.Bin? then Bin(t.l, item, t.r) else Bin(Nil, item, Nil))
      ensures Ordered(cmp, Seq(shape)) && KeysDiffer(Seq(shape)) && Distinct(shape)
      ensures Contents() == old(Contents())[item.key := item]
      ensures victim == if item.key in old(Contents()) then old(Contents())[item.key] else null
      ensures Items(shape) == old(Items(shape)) + {item} - {victim}
      ensures Searchable(cmp) <==>
                t.Bin? || (old(item.lhs) == null && old(item.rhs) == null && (c.Hole? ==> p == null))
      ensures victim != null ==> victim in old(Wires()) && LinksOf(victim) == old(Wires())[victim]
      ensures victim == null ==> item.lhs == old(item.lhs) && item.rhs == old(item.rhs)
    {
      hide Valid, Ordered, KeysDiffer, Dict, Searching, TotalOrder;
      if victim != null {
        u := SettleInPlace(item, victim, cmp, slot, c, t, p);
      } else {
        u := SettleInHole(item, cmp, slot, c, p);
      }
    }

    ghost function LinksOf(x: Item<K>): Links<K>
      reads x
    {
      Links(x.lhs, x.rhs, x.parent)
    }

    method SettleInPlace(
      item: Item<K>, victim: Item<K>, cmp: (K, K) -> int, slot: Slot<K>, ghost c: Ctx<K>, ghost t: Shape<K>, ghost p: Item?<K>
    ) returns (ghost u: Shape<K>)
      requires Descending(item, cmp, slot, c, t, p) && victim == Top(t) && victim.key == item.key
      modifies this, item, Items(shape)
      ensures shape == Plug(c, u) && u == Bin(t.l, item, t.r) && Searchable(cmp) && Distinct(shape)
      ensures item.key in old(Contents()) && victim == old(Contents())[item.key]
      ensures Contents() == old(Contents())[item.key := item]
      ensures Items(shape) == old(Items(shape)) + {item} - {victim}
      ensures victim in old(Wires()) && LinksOf(victim) == old(Wires())[victim]
    {
      hide Valid, Ordered, KeysDiffer, Dict, Searching, TotalOrder;
      u := Bin(t.l, item, t.r);
      ReadSlot(c, t);
      ReplacedDict(cmp, c, t, item);
      Replace(slot, victim, item, c, t);
    }

    method SettleInHole(item: Item<K>, cmp: (K, K) -> int, slot: Slot<K>, ghost c: Ctx<K>, ghost p: Item?<K>)
        returns (ghost u: Shape<K>)
      requires Descending(item, cmp, slot, c, Nil, p)
      modifies this, Items(shape)
      ensures shape == Plug(c, u) && u == Bin(Nil, item, Nil)
      ensures Ordered(cmp, Seq(shape)) && KeysDiffer(Seq(shape)) && Distinct(shape)
      ensures item.key !in old(Contents())
      ensures Contents() == old(Contents())[item.key := item]
      ensures Items(shape) == old(Items(shape)) + {item}
      ensures Searchable(cmp) <==> old(item.lhs) == null && old(item.rhs) == null && (c.Hole? ==> p == null)
    {
      hide Valid, Ordered, KeysDiffer, Dict, Searching, TotalOrder;
      u := Bin(Nil, item, Nil);
      PlantedDict(cmp, c, item);
      Plant(slot, item, c);
    }

    /** Where the search for x ends, x takes the place of what is there. */
    ghost function Inserted(cmp: (K, K) -> int, x: Item<K>, t: Shape<K>): Shape<K> {
      if t.Nil? then Bin(Nil, x, Nil)
      else if cmp(t.it.key, x.key) == 0 then Bin(t.l, x, t.r)
      else if cmp(t.it.key, x.key) < 0 then Bin(t.l, t.it, Inserted(cmp, x, t.r))
      else Bin(Inserted(cmp, x, t.l), t.it, t.r)
    }

    /** x can be hung up wherever its search ends; only an equal key makes its old links unimportant. */
    ghost predicate Clean(x: Item<K>)
      requires KeysDiffer(Seq(shape))
      reads this, x
    {
      || x in Items(shape) || x.key in Contents()
      || (x.lhs == null && x.rhs == null && (shape == Nil ==> x.parent == null))
    }

    lemma InsertStarts(item: Item<K>, cmp: (K, K) -> int)
      requires Searchable(cmp)
      ensures Load(AtTop) == Top(shape)
      ensures if item in Items(shape) then Returning(item, cmp, AtTop, Hole, shape, item.parent)
              else Descending(item, cmp, AtTop, Hole, shape, item.parent)
    {
      ReadSlot(Hole, shape);
      if item in Items(shape) {
        ReturnStarts(item, cmp);
      }
    }

    lemma Equals(item: Item<K>, location: Item?<K>, cmp: (K, K) -> int)
      requires TotalOrder(cmp) && (location == null || cmp(location.key, item.key) == 0)
      ensures location != null ==> location.key == item.key
    {
    }

    lemma Present(item: Item<K>, cmp: (K, K) -> int)
      requires Searchable(cmp) && item in Items(shape)
      ensures item.key in Contents() && Contents()[item.key] == item
    {
      SeqItem(shape, item);
    }

    lemma ShapeDistinct()
      requires Valid()
      ensures Distinct(shape)
    {
    }

    lemma InsertedHere(cmp: (K, K) -> int, x: Item<K>, t: Shape<K>)
      requires TotalOrder(cmp) && (t.Bin? ==> t.it.key == x.key)
      ensures Inserted(cmp, x, t) == if t.Nil? then Bin(Nil, x, Nil) else Bin(t.l, x, t.r)
    {
    }

    /** Inserts `item`.  An item with an equal key gives up its place and is handed out,
        once, for deletion, with its links still set; an item that is in the tree already
        stays where it is.  The tree stays a tree exactly if the item was clean. */
    method Insert(item: Item<K>, cmp: (K, K) -> int) returns (depth: nat, victim: Item?<K>)
      requires Searchable(cmp)
      modifies this, item, Items(shape)
      ensures Ordered(cmp, Seq(shape)) && KeysDiffer(Seq(shape))
      ensures Searchable(cmp) <==> old(Clean(item))
      ensures shape == old(Inserted(cmp, item, shape))
      ensures Contents() == old(Contents())[item.key := item]
      ensures victim == if item.key in old(Contents()) && old(Contents())[item.key] != item
                        then old(Contents())[item.key] else null
      ensures Items(shape) == old(Items(shape)) + {item} - {victim}
      ensures victim != null ==> victim in old(Wires()) && LinksOf(victim) == old(Wires())[victim]
      ensures item in Items(shape) && depth == Depth(shape, item)
      ensures victim == null ==> item.lhs == old(item.lhs) && item.rhs == old(item.rhs)
    {
      hide Valid, Ordered, KeysDiffer, Dict, Searching, TotalOrder, Inserted, Distinct;
      ghost var p, present := item.parent, item in Items(shape);
      ShapeDistinct();
      InsertStarts(item, cmp);
      depth := 0;
      var slot: Slot<K> := AtTop;
      ghost var c, t := Hole, shape;
      var location := Load(slot);
      while location != null && cmp(location.key, item.key) != 0
        invariant shape == old(shape) && present == (item in Items(shape))
        invariant if present then Returning(item, cmp, slot, c, t, p) else Descending(item, cmp, slot, c, t, p)
        invariant item.lhs == old(item.lhs) && item.rhs == old(item.rhs)
        invariant !present ==> Wires() == old(Wires())
        invariant location == Top(t) && depth == CtxDepth(c)
        invariant Inserted(cmp, item, shape) == Plug(c, Inserted(cmp, item, t))
        decreases t
      {
        slot, c, t := StepDown(item, location, cmp, slot, c, t, p);
        if present {
          ReadReturning(item, cmp, slot, c, t, p);
        }
        location := Load(slot);
        depth := depth + 1;
      }
      victim := null;
      Equals(item, location, cmp);
      InsertedHere(cmp, item, t);
      if present {
        Returned(item, cmp, slot, c, t, p);
      } else {
        ReadSlot(c, t);
      }
      if location == item {
        Present(item, cmp);
        DepthAtTop(c, t);
      } else {
        victim := location;
        ghost var u := Settle(item, victim, cmp, slot, c, t, p);
        DepthAtTop(c, u);
      }
    }

    /** The pointer writes of a removal, up to clearing the links of `item`. */
    method Unhook(slot: Slot<K>, item: Item<K>, last: Item?<K>, ghost c: Ctx<K>, ghost s: set<Item<K>>)
      requires slot == SlotOf(c) && CanUnhook(Snap(s), top, c, item, last)
      modifies this`top, s
      ensures Unhooked(old(Snap(s)), old(top), Snap(s), top, c, item, last)
    {
      var child := item.lhs;
      if item.lhs != null && item.rhs == null {
        item.lhs.parent := item.parent;
      } else if item.rhs != null && item.lhs == null {
        child := item.rhs;
        item.rhs.parent := item.parent;
      } else if item.rhs != null && item.lhs != null {
        item.rhs.parent := last;
        last.rhs := item.rhs;
        item.lhs.parent := item.parent;
      }
      match slot {
        case AtTop => top := child;
        case AtLhs(owner) => owner.lhs := child;
        case AtRhs(owner) => owner.rhs := child;
      }
    }

    method SlotOfItem(item: Item<K>, ghost c: Ctx<K>, ghost t: Shape<K>) returns (slot: Slot<K>)
      requires Valid() && shape == Plug(c, t) && item == Top(t)
      ensures Valid() && slot == SlotOf(c)
    {
      ReadSlot(c, t);
      ReadSide(c, t);
      if item.parent != null {
        slot := if item.parent.lhs == item then AtLhs(item.parent) else AtRhs(item.parent);
      } else {
        slot := AtTop;
      }
    }

    /** The last item of the left subtree, when the item has both subtrees. */
    method LastOnLeft(item: Item<K>, ghost c: Ctx<K>, ghost t: Shape<K>) returns (last: Item?<K>)
      requires Valid() && shape == Plug(c, t) && item == Top(t)
      ensures Valid() && (t.l.Bin? ==> last == LastItem(t.l))
    {
      ReadSlot(c, t);
      last := Last(item.lhs, InL(c, t.it, t.r), t.l);
      if t.l.Bin? {
        LastInOrder(t.l);
        SizeSeq(t.l);
        ItemInPlace(InL(c, t.it, t.r), t.l, |Seq(t.l)| - 1);
      }
    }

    /** The writes of a removal at `slot`; the links of `item` are still set. */
    method CutOut(slot: Slot<K>, item: Item<K>, last: Item?<K>, ghost c: Ctx<K>, ghost t: Shape<K>)
      requires Valid() && shape == Plug(c, t) && item == Top(t) && slot == SlotOf(c)
      requires t.l.Bin? ==> last == LastItem(t.l)
      modifies this, Items(shape)
      ensures Valid() && shape == Plug(c, Join(t.l, t.r)) && Items(shape) == old(Items(shape)) - {item}
    {
      ghost var m, oldTop, s := Wires(), top, Items(shape);
      BeforeUnhook(m, oldTop, c, t, last);
      Unhook(slot, item, last, c, s);
      Removed(m, oldTop, Snap(s), top, c, t, last);
      shape := Plug(c, Join(t.l, t.r));
      Represented(Snap(s), Wires(), top, shape);
    }

    /** Takes `item` out of its place; its subtrees stay in the tree. */
    method Detach(item: Item<K>, ghost c: Ctx<K>, ghost t: Shape<K>)
      requires Valid() && shape == Plug(c, t) && item == Top(t)
      modifies this, Items(shape)
      ensures Valid() && shape == Plug(c, Join(t.l, t.r)) && Items(shape) == old(Items(shape)) - {item}
      ensures item.lhs == null && item.rhs == null && item.parent == null
    {
      ReadSlot(c, t);
      var slot := SlotOfItem(item, c, t);
      var last := LastOnLeft(item, c, t);
      CutOut(slot, item, last, c, t);
      item.lhs, item.rhs, item.parent := null, null, null;
    }

    /** Removes the item with key `key`, if there is one, and hands it out detached. */
    method Remove(key: K, cmp: (K, K) -> int) returns (removed: Item?<K>)
      requires Searchable(cmp)
      modifies this, Items(shape)
      ensures Searchable(cmp)
      ensures removed == if key in old(Contents()) then old(Contents())[key] else null
      ensures Contents() == old(Contents()) - {key}
      ensures Items(shape) == old(Items(shape)) - {removed}
      ensures removed != null ==> removed.lhs == null && removed.rhs == null && removed.parent == null
      ensures removed == null ==> shape == old(shape)
    {
      removed := Find(key, cmp);
      if removed != null {
        SeqItem(shape, removed);
        ghost var c, t := PlaceOf(shape, removed);
        PlugDistinct(c, t);
        RemovedDict(cmp, c, t);
        Detach(removed, c, t);
      }
    }
  }
}
