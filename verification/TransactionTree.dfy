/**
 The tree of the transactions: a binary search tree by message id, whose items belong to
 transactions.  Its operations are those that the engine performs on a finite map.
 */
module TransactionTree {
  import opened BtreeShape
  import opened BtreeOrder
  import opened Btree
  import MsgId
  import opened Transactions

  type uint16 = MsgId.uint16

  /** The comparison of two message ids. */
  function Compare(lhs: uint16, rhs: uint16): int {
    if lhs > rhs then 1 else if lhs < rhs then -1 else 0
  }

  lemma CompareIsOrder()
    ensures TotalOrder(Compare)
  {
  }

  class Store {
    const tree: Tree<uint16>
    /** Whose item this is, and the item that a transaction has now.  An item is made for one
        id; a new id comes with a new item that takes over the links. */
    var owner: map<Item<uint16>, Txn>
    var own: map<Txn, Item<uint16>>

    ghost predicate Valid()
      reads this, tree, Items(tree.shape)
    {
      tree.Searchable(Compare) && Owned(Items(tree.shape), owner, own)
    }

    lemma ContentsAreItems(id: uint16)
      requires Valid() && id in tree.Contents()
      ensures tree.Contents()[id] in Items(tree.shape) && tree.Contents()[id] in owner && tree.Contents()[id].key == id
    {
      SeqItem(tree.shape, tree.Contents()[id]);
    }

    /** The map that the engine works with. */
    ghost function View(): map<uint16, Txn>
      requires Valid()
      reads this, tree, Items(tree.shape)
    {
      ViewOf(tree.Contents(), owner)
    }

    /** Every id of the tree is in the map. */
    lemma ViewIsWhole()
      requires Valid()
      ensures KeysDiffer(Seq(tree.shape))
      ensures tree.Contents().Values <= Items(tree.shape) && tree.Contents().Values <= owner.Keys
      ensures View().Keys == tree.Contents().Keys && Items(tree.shape) <= owner.Keys
    {
      forall id | id in tree.Contents()
        ensures tree.Contents()[id] in Items(tree.shape) && tree.Contents()[id] in owner
      {
        ContentsAreItems(id);
      }
    }

    constructor ()
      ensures Valid() && View() == map[] && fresh(tree)
    {
      CompareIsOrder();
      tree := new Tree<uint16>();
      owner, own := map[], map[];
    }

    method Find(id: uint16) returns (t: Txn?)
      requires Valid()
      ensures Valid() && t == if id in View() then View()[id] else null
    {
      hide tree.Searchable, tree.Contents, ViewOf;
      ViewIsWhole();
      ViewAt(tree.Contents(), owner, id);
      var x := tree.Find(id, Compare);
      t := null;
      if x != null {
        t := owner[x];
      }
    }

    /** The links of the item that a transaction has. */
    ghost function LinksOf(t: Txn): Links<uint16>
      reads this`own, own.Values
    {
      if t in own then Links(own[t].lhs, own[t].rhs, own[t].parent) else Links(null, null, null)
    }

    ghost predicate InTree(t: Txn)
      reads this`own, tree
    {
      t in own && own[t] in Items(tree.shape)
    }

    /** Takes the transaction with this id out of the tree, if there is one, and clears its links. */
    method Remove(id: uint16) returns (t: Txn?)
      requires Valid()
      modifies tree, Items(tree.shape)
      ensures Valid() && View() == old(View()) - {id}
      ensures t == if id in old(View()) then old(View())[id] else null
      ensures t != null ==> !InTree(t) && LinksOf(t) == Links(null, null, null)
    {
      hide tree.Searchable, tree.Contents, ViewOf;
      ViewIsWhole();
      ViewAt(tree.Contents(), owner, id);
      ghost var contents := tree.Contents();
      var x := tree.Remove(id, Compare);
      t := null;
      if x != null {
        t := owner[x];
      }
      ViewWithout(contents, owner, id);
    }

    /** An item for an id, with the links that the transaction has. */
    method NewItem(t: Txn, id: uint16) returns (x: Item<uint16>)
      ensures fresh(x) && x.key == id && Links(x.lhs, x.rhs, x.parent) == LinksOf(t)
    {
      x := new Item(id);
      if t in own {
        x.lhs, x.rhs, x.parent := own[t].lhs, own[t].rhs, own[t].parent;
      }
    }

    /** Whether t can be entered under an id and leave a tree. */
    ghost predicate Clean(t: Txn, id: uint16)
      requires Valid()
      reads this, own.Values, tree, Items(tree.shape)
    {
      var l := LinksOf(t);
      id in View() || (l.lhs == null && l.rhs == null && (View() == map[] ==> l.parent == null))
    }

    lemma EmptyView()
      requires Valid()
      ensures View() == map[] <==> tree.shape == Nil
    {
      ViewIsWhole();
      assert tree.Contents().Keys == Keys(Seq(tree.shape));
      if tree.shape.Bin? {
        SeqItem(tree.shape, tree.shape.it);
        assert tree.shape.it.key in Keys(Seq(tree.shape));
      }
    }

    /** An item in the tree has no links exactly if it is the only one. */
    lemma LinksOfOnlyItem(id: uint16)
      requires Valid() && id in View()
      ensures LinksOf(View()[id]) == Links(null, null, null) <==> View().Keys == {id}
    {
      ViewIsWhole();
      ContentsAreItems(id);
      var x := tree.Contents()[id];
      OnlyItem(tree.Wires(), tree.top, tree.shape, x);
      OnlyKey(tree.shape, x);
    }

    lemma CleanItem(t: Txn, id: uint16, x: Item<uint16>)
      requires Valid() && KeysDiffer(Seq(tree.shape))
      requires x !in Items(tree.shape) && x.key == id && Links(x.lhs, x.rhs, x.parent) == LinksOf(t)
      ensures tree.Clean(x) <==> Clean(t, id)
    {
      ViewIsWhole();
      EmptyView();
    }

    /** Enters a transaction under an id; the one that has this id already is handed out, with its links. */
    method Insert(t: Txn, id: uint16) returns (victim: Txn?)
      requires Valid() && !InTree(t)
      modifies this`owner, this`own, tree, Items(tree.shape)
      ensures Valid() <==> old(Clean(t, id))
      ensures Valid() ==> View() == old(View())[id := t]
      ensures victim == if id in old(View()) then old(View())[id] else null
      ensures victim != null ==> !InTree(victim) && (LinksOf(victim) == Links(null, null, null) <==> old(View()).Keys == {id})
    {
      hide tree.Searchable, tree.Contents, ViewOf, Owned, tree.Clean, Clean;
      ViewIsWhole();
      if id in View() {
        LinksOfOnlyItem(id);
        HolderIsIn(id);
      }
      var x := NewItem(t, id);
      CleanItem(t, id, x);
      victim := Enter(t, id, x);
    }

    lemma HolderIsIn(id: uint16)
      requires Valid() && id in View()
      ensures View()[id] in own && own[View()[id]] in Items(tree.shape)
    {
      ViewIsWhole();
      ContentsAreItems(id);
    }

    /** Hangs the new item of t into the tree. */
    method Enter(t: Txn, id: uint16, x: Item<uint16>) returns (victim: Txn?)
      requires Valid() && !InTree(t) && x !in owner && x.key == id && KeysDiffer(Seq(tree.shape))
      modifies this`owner, this`own, tree, Items(tree.shape), x
      ensures Valid() <==> old(tree.Clean(x))
      ensures Valid() ==> View() == old(View())[id := t]
      ensures victim == if id in old(View()) then old(View())[id] else null
      ensures victim != null ==>
                && victim in old(own) && victim in own && own[victim] == old(own[victim])
                && own[victim] !in Items(tree.shape) && LinksOf(victim) == old(LinksOf(victim))
    {
      hide tree.Searchable, tree.Contents, ViewOf, Owned, tree.Clean;
      ViewIsWhole();
      ViewAt(tree.Contents(), owner, id);
      ghost var contents, was, items := tree.Contents(), owner, Items(tree.shape);
      var depth, replaced := tree.Insert(x, Compare);
      victim := null;
      if replaced != null {
        OwnerOf(items, owner, own, replaced);
        victim := owner[replaced];
      }
      OwnedWith(items, Items(tree.shape), owner, own, x, t, replaced);
      owner := owner[x := t];
      own := own[t := x];
      ViewWith(contents, was, id, x, t);
    }

    lemma StepsInOrder()
      requires Valid()
      ensures tree.Valid() && tree.top == Top(tree.shape)
      ensures Ordered(Compare, Seq(tree.shape))
      ensures forall i | 0 <= i < |Seq(tree.shape)| :: Seq(tree.shape)[i] in owner
    {
      forall i | 0 <= i < |Seq(tree.shape)|
        ensures Seq(tree.shape)[i] in owner
      {
        SeqItem(tree.shape, Seq(tree.shape)[i]);
      }
    }

    lemma PlaceOfId(id: uint16) returns (i: nat)
      requires Valid() && id in View()
      ensures i < |Seq(tree.shape)| && Seq(tree.shape)[i].key == id
      ensures Seq(tree.shape)[i] in owner && View()[id] == owner[Seq(tree.shape)[i]]
    {
      i :| 0 <= i < |Seq(tree.shape)| && Seq(tree.shape)[i] == tree.Contents()[id];
      ContentsAreItems(id);
    }

    lemma IdOfPlace(i: nat)
      requires Valid() && i < |Seq(tree.shape)|
      ensures var x := Seq(tree.shape)[i]; x.key in View() && x in owner && View()[x.key] == owner[x]
    {
      var x := Seq(tree.shape)[i];
      ViewIsWhole();
      ContentsAreItems(x.key);
      SeqItem(tree.shape, x);
      SeqItem(tree.shape, tree.Contents()[x.key]);
    }

    /** Steps through the tree from its first item to the first one that has this token. */
    method FindViaToken(token: uint16) returns (t: Txn?, ghost id: uint16)
      requires Valid()
      ensures Valid()
      ensures t == null ==> forall i | i in View() :: View()[i].token != token
      ensures t != null ==>
                && id in View() && View()[id] == t && t.token == token
                && forall i | i in View() && i < id :: View()[i].token != token
    {
      hide tree.Searchable, tree.Contents;
      StepsInOrder();
      t, id := null, 0;
      ghost var s := Seq(tree.shape);
      var iter := tree.First(tree.top, Hole, tree.shape);
      ghost var n := 0;
      while iter != null && owner[iter].token != token
        invariant Valid() && tree.Valid() && 0 <= n <= |s| && iter == Nth(s, n)
        invariant forall j | 0 <= j < n :: owner[s[j]].token != token
        decreases |s| - n
      {
        iter := tree.Next(iter, n);
        n := n + 1;
      }
      if iter != null {
        t := owner[iter];
        IdOfPlace(n);
        id := iter.key;
      }
      forall i | i in View() && (t == null || i < id)
        ensures View()[i].token != token
      {
        var j := PlaceOfId(i);
        assert j > n ==> Compare(s[n].key, s[j].key) < 0;
      }
    }
  }

  /** A tree with the items 5 and, below it, 3. */
  method TwoItems() returns (tree: Tree<uint16>, a: Item<uint16>, b: Item<uint16>)
    ensures fresh(tree) && fresh(a) && fresh(b) && a != b && tree.Searchable(Compare)
    ensures a.key == 5 && b.key == 3 && tree.shape == Bin(Bin(Nil, b, Nil), a, Nil) && a.lhs == b
  {
    hide Dict, Ordered, Represents;
    CompareIsOrder();
    tree := new Tree<uint16>();
    a := new Item(5);
    EmptyTree(tree);
    var depth, victim := tree.Insert(a, Compare);
    b := new Item(3);
    assert Seq(tree.shape) == [a];
    depth, victim := tree.Insert(b, Compare);
    tree.ReadSlot(Hole, tree.shape);
  }

  lemma EmptyTree(tree: Tree<uint16>)
    requires tree.Valid() && tree.shape == Nil
    ensures tree.Searchable(Compare)
  {
    CompareIsOrder();
  }

  /** 5 is replaced by another 5, which is removed. */
  method ThrownOut(tree: Tree<uint16>, a: Item<uint16>, b: Item<uint16>)
    requires tree.Searchable(Compare) && a.key == 5 && b.key == 3 && a != b
    requires tree.shape == Bin(Bin(Nil, b, Nil), a, Nil) && a.lhs == b
    modifies tree, Items(tree.shape)
    ensures tree.Searchable(Compare) && Items(tree.shape) == {b} && a.lhs == b
  {
    hide Dict, Ordered, Represents;
    assert Items(tree.shape) == {a, b};
    SeqItem(tree.shape, a);
    Holds5(tree, a);
    var other := new Item(5);
    var depth, victim := tree.Insert(other, Compare);
    var removed := tree.Remove(5, Compare);
  }

  lemma Holds5(tree: Tree<uint16>, a: Item<uint16>)
    requires tree.Searchable(Compare) && a in Seq(tree.shape)
    ensures a.key in tree.Contents() && tree.Contents()[a.key] == a
  {
  }

  /**
     An item that was thrown out and comes back under another id: 5 has the child 3, another 5
     takes its place and is removed, and what was 5 first is entered as 9.  It still has the
     child 3, below which it now hangs itself.
     */
  method ThrownOutAndBack() returns (tree: Tree<uint16>, again: Item<uint16>)
    ensures !tree.Searchable(Compare)
    ensures again in Items(tree.shape) && again.lhs != null && again.lhs in Items(tree.shape)
  {
    hide Dict, Ordered, Represents, tree.Searchable;
    var a, b;
    tree, a, b := TwoItems();
    assert Items(tree.shape) == {a, b};
    ThrownOut(tree, a, b);
    again := new Item(9);
    again.lhs, again.rhs, again.parent := a.lhs, a.rhs, a.parent;
    StillLinked(tree, b, again);
    var depth, victim := tree.Insert(again, Compare);
  }

  lemma StillLinked(tree: Tree<uint16>, b: Item<uint16>, again: Item<uint16>)
    requires tree.Searchable(Compare) && Items(tree.shape) == {b} && b.key == 3
    requires again != b && again.key == 9 && again.lhs != null
    ensures KeysDiffer(Seq(tree.shape)) && !tree.Clean(again)
    ensures again.key !in tree.Contents()
  {
    forall x
      ensures x in Seq(tree.shape) <==> x == b
    {
      SeqItem(tree.shape, x);
    }
    assert tree.Contents().Keys == Keys(Seq(tree.shape));
    assert b.key in tree.Contents();
  }

  lemma OnlyItem(m: Wiring<uint16>, top: Item?<uint16>, t: Shape<uint16>, x: Item<uint16>)
    requires Represents(m, top, t) && x in Items(t)
    ensures x in m && (m[x] == Links(null, null, null) <==> t == Bin(Nil, x, Nil))
  {
    SeqItem(t, x);
    var i :| 0 <= i < |Seq(t)| && Seq(t)[i] == x;
    var c, u := Locate(t, i);
    PlugPlaced(m, top, c, u);
    SmallPlug(c, u);
  }

  lemma OnlyKey(t: Shape<uint16>, x: Item<uint16>)
    requires Distinct(t) && KeysDiffer(Seq(t)) && x in Items(t)
    ensures Keys(Seq(t)) == {x.key} <==> t == Bin(Nil, x, Nil)
  {
    SeqItem(t, x);
    SeqItem(t, t.it);
    if Keys(Seq(t)) == {x.key} {
      assert forall y | y in Seq(t) :: y.key in Keys(Seq(t));
      assert t.it == x;
      OnlyItemBelow(t, t.l, x);
      OnlyItemBelow(t, t.r, x);
    }
    if t == Bin(Nil, x, Nil) {
      assert Seq(t) == [x];
    }
  }

  lemma OnlyItemBelow(t: Shape<uint16>, u: Shape<uint16>, x: Item<uint16>)
    requires Items(u) <= Items(t) && x !in Items(u) && forall y | y in Seq(t) :: y == x
    ensures u == Nil
  {
    if u.Bin? {
      SeqItem(t, u.it);
    }
  }

  lemma SmallPlug(c: Ctx<uint16>, u: Shape<uint16>)
    requires u.Bin?
    ensures Plug(c, u) == Bin(Nil, u.it, Nil) <==> c.Hole? && u == Bin(Nil, u.it, Nil)
  {
    if !c.Hole? {
      PlugItems(c, u);
    }
  }

  /** Every item in the tree is the one that its transaction has. */
  ghost predicate Owned(items: set<Item<uint16>>, owner: map<Item<uint16>, Txn>, own: map<Txn, Item<uint16>>) {
    forall x | x in items :: x in owner && owner[x] in own && own[owner[x]] == x
  }

  lemma OwnerOf(items: set<Item<uint16>>, owner: map<Item<uint16>, Txn>, own: map<Txn, Item<uint16>>, x: Item<uint16>)
    requires Owned(items, owner, own) && x in items
    ensures x in owner && owner[x] in own && own[owner[x]] == x
  {
  }

  lemma OwnedWith(
    items: set<Item<uint16>>, more: set<Item<uint16>>, owner: map<Item<uint16>, Txn>, own: map<Txn, Item<uint16>>,
    x: Item<uint16>, t: Txn, replaced: Item?<uint16>
  )
    requires Owned(items, owner, own) && x !in items && (t in own ==> own[t] !in items)
    requires more == items + {x} - {replaced}
    ensures Owned(more, owner[x := t], own[t := x])
  {
  }

  ghost function ViewOf(contents: map<uint16, Item<uint16>>, owner: map<Item<uint16>, Txn>): map<uint16, Txn> {
    map id | id in contents && contents[id] in owner :: owner[contents[id]]
  }

  lemma ViewAt(contents: map<uint16, Item<uint16>>, owner: map<Item<uint16>, Txn>, id: uint16)
    requires contents.Values <= owner.Keys
    ensures id in ViewOf(contents, owner) <==> id in contents
    ensures id in contents ==> contents[id] in owner && ViewOf(contents, owner)[id] == owner[contents[id]]
  {
  }

  lemma ViewWithout(contents: map<uint16, Item<uint16>>, owner: map<Item<uint16>, Txn>, id: uint16)
    ensures ViewOf(contents - {id}, owner) == ViewOf(contents, owner) - {id}
  {
  }

  lemma ViewWith(contents: map<uint16, Item<uint16>>, owner: map<Item<uint16>, Txn>, id: uint16, item: Item<uint16>, t: Txn)
    requires item !in contents.Values
    ensures ViewOf(contents[id := item], owner[item := t]) == ViewOf(contents, owner)[id := t]
  {
    forall i | i in contents && i != id
      ensures contents[i] != item
    {
      assert contents[i] in contents.Values;
    }
  }
}
