/**
 Editing an array or object in the heap: appending, inserting, detaching and
 replacing children leaves a tree in shape, whose item is the old one with its
 children edited as a sequence.
 */
module TreeEdits {
  import opened Items
  import opened Heap
  import opened Trees
  import opened Siblings

  ghost function Nodes(ts: seq<Tree>): (r: seq<Node>)
    ensures |r| == |ts| && forall i :: 0 <= i < |ts| ==> r[i] == ts[i].node
  {
    seq(|ts|, i requires 0 <= i < |ts| => ts[i].node)
  }

  ghost function WithKids(t: Tree, kids: seq<Tree>): Tree {
    t.(kids := kids)
  }

  // ---- separation, pair by pair

  ghost predicate Pairwise(ts: seq<Tree>) {
    && (forall i :: 0 <= i < |ts| ==> Separate(ts[i]))
    && forall i, j :: 0 <= i < j < |ts| ==> Foot(ts[i]) !! Foot(ts[j])
  }

  lemma {:induction false} FootsOf(ts: seq<Tree>, o: object)
    requires o in Foots(ts)
    ensures exists i :: 0 <= i < |ts| && o in Foot(ts[i])
    decreases |ts|
  {
    hide Foot;
    if o in Foots(Init(ts)) {
      FootsOf(Init(ts), o);
      var i :| 0 <= i < |Init(ts)| && o in Foot(Init(ts)[i]);
      assert ts[i] == Init(ts)[i];
    }
  }

  lemma {:induction false} SeparatesPairwise(ts: seq<Tree>)
    ensures Separates(ts) <==> Pairwise(ts)
    decreases |ts|
  {
    hide Foot, Separate, Foots;
    if ts != [] {
      var a, t := Init(ts), Last(ts);
      SeparatesPairwise(a);
      assert ts == a + [t];
      Snoc(a, t);
      if Separates(ts) {
        forall i, j | 0 <= i < j < |ts| ensures Foot(ts[i]) !! Foot(ts[j]) {
          if j == |a| { assert Foot(a[i]) <= Foots(a); } else { assert a[i] == ts[i] && a[j] == ts[j]; }
        }
        forall i | 0 <= i < |ts| ensures Separate(ts[i]) {
          if i < |a| { assert a[i] == ts[i]; }
        }
      }
      if Pairwise(ts) {
        forall i | 0 <= i < |a| ensures Separate(a[i]) && Foot(a[i]) !! Foot(t) {
          assert a[i] == ts[i] && ts[|a|] == t;
        }
        forall i, j | 0 <= i < j < |a| ensures Foot(a[i]) !! Foot(a[j]) {
          assert a[i] == ts[i] && a[j] == ts[j];
        }
        forall o | o in Foots(a) ensures o !in Foot(t) {
          FootsOf(a, o);
        }
      }
    }
  }

  lemma {:induction false} ItemsAre(ts: seq<Tree>, items: seq<Item>)
    requires |items| == |ts| && forall i :: 0 <= i < |ts| ==> items[i] == ItemOf(ts[i])
    ensures ItemsOf(ts) == items
  {
    hide ItemOf, ItemsOf;
    forall i | 0 <= i < |ts| ensures ItemsOf(ts)[i] == items[i] {
      ItemsAt(ts, i);
    }
  }

  // ---- shape and sibling list

  lemma {:induction false} ChainOf(t: Tree)
    requires Shape(t) && Separate(t) && !t.shared
    ensures Chain(t.node.child, Nodes(t.kids)) && Shapes(t.kids)
  {
    hide Foots, Separates;
    var ts, ns := t.kids, Nodes(t.kids);
    forall i, j | 0 <= i < j < |ns| ensures ns[i] != ns[j] {
      Apart(ts, i, j);
    }
    forall i | 0 <= i < |ns| - 1 ensures Link(ns[i], ns[i + 1]) {
      assert ts[i].node.next == ts[i + 1].node && ts[i + 1].node.prev == ts[i].node;
    }
  }

  lemma {:induction false} InShape(t: Tree)
    requires Fields(t) && Chain(t.node.child, Nodes(t.kids)) && Shapes(t.kids)
    ensures Shape(t)
  {
    hide Foots;
    var ts, ns := t.kids, Nodes(t.kids);
    forall i | 0 <= i < |ts| - 1
      ensures ts[i].node.next == ts[i + 1].node && ts[i + 1].node.prev == ts[i].node
    {
      assert Link(ns[i], ns[i + 1]);
    }
    assert forall i :: 0 < i < |ts| ==> ts[i].node.prev == ts[i - 1].node;
  }

  /** The node and its children are not in the set. */
  ghost predicate OffTop(t: Tree, s: set<object>) {
    t.node !in s && forall n :: n in Tops(t.kids) ==> n !in s
  }

  /** The links at the top are no part of what lies below. */
  lemma {:induction false} TopsApart(t: Tree)
    requires Separate(t) && !t.shared
    ensures forall i :: 0 <= i < |t.kids| ==> OffTop(t, Inner(t.kids[i]))
    ensures Members(Nodes(t.kids)) == Tops(t.kids) <= Foots(t.kids)
    ensures t.node !in Tops(t.kids)
  {
    hide Foots, Foot, Separates, Inner;
    var ts := t.kids;
    TopsOwned(ts);
    forall i | 0 <= i < |ts| ensures OffTop(t, Inner(ts[i])) {
      assert Inner(ts[i]) <= Foot(ts[i]) <= Foots(ts);
      forall n | n in Tops(ts) ensures n !in Inner(ts[i]) {
        var j :| 0 <= j < |ts| && n == ts[j].node;
        Apart(ts, j, i);
      }
    }
    forall n ensures n in Members(Nodes(ts)) <==> n in Tops(ts) {
      if n in Members(Nodes(ts)) {
        var i :| 0 <= i < |ts| && Nodes(ts)[i] == n;
      }
      if n in Tops(ts) {
        var i :| 0 <= i < |ts| && ts[i].node == n;
        assert Nodes(ts)[i] == n;
      }
    }
  }

  /** Two separate trees keep off each other. */
  lemma {:induction false} Guest(t: Tree, it: Tree)
    requires Separate(t) && !t.shared && Separate(it) && Foot(t) !! Foot(it)
    ensures it.node !in Nodes(t.kids) && it.node != t.node && it.node !in Inner(it)
    ensures forall i :: 0 <= i < |t.kids| ==> it.node !in Inner(t.kids[i])
    ensures OffTop(t, Inner(it))
    ensures Foots(t.kids) <= Foot(t) && Inner(it) <= Foot(it)
    ensures forall i :: 0 <= i < |t.kids| ==> Inner(t.kids[i]) <= Foot(t)
  {
    hide Foots, Separates;
    TopsOwned(t.kids);
    assert forall i :: 0 <= i < |t.kids| ==> Foot(t.kids[i]) <= Foots(t.kids);
  }

  // ---- append

  /** `add_item_to_array`, of a tree by itself. */
  method Append(ghost mem: Memory, parent: Node, item: Node, ghost t: Tree, ghost it: Tree) returns (ok: bool)
    requires parent == t.node && Shape(t) && Separate(t) && !t.shared
    requires item == it.node && Shape(it) && Separate(it) && item.next == null
    requires Foot(t) !! Foot(it) && Foot(t) + Foot(it) <= mem.live
    modifies parent`child, item`next, item`prev, Tops(t.kids)`next, Tops(t.kids)`prev
    ensures ok
    ensures var u := WithKids(t, t.kids + [it]);
            Shape(u) && Separate(u) && Foot(u) == Foot(t) + Foot(it)
    ensures ItemOf(WithKids(t, t.kids + [it])) == ItemOf(t).(kids := ItemOf(t).kids + [ItemOf(it)])
  {
    ok := AppendLinks(mem, parent, item, t, it);
    AppendTree(t, it);
    InShape(WithKids(t, t.kids + [it]));
  }

  lemma {:induction false} AppendTree(t: Tree, it: Tree)
    requires Separate(t) && !t.shared && Separate(it) && Foot(t) !! Foot(it)
    ensures var u := WithKids(t, t.kids + [it]);
            Separate(u) && Foot(u) == Foot(t) + Foot(it)
    ensures ItemOf(WithKids(t, t.kids + [it])) == ItemOf(t).(kids := ItemOf(t).kids + [ItemOf(it)])
  {
    hide Foots, Separates, ItemsOf;
    Snoc(t.kids, it);
  }

  method AppendLinks(ghost mem: Memory, parent: Node, item: Node, ghost t: Tree, ghost it: Tree) returns (ok: bool)
    requires parent == t.node && Shape(t) && Separate(t) && !t.shared
    requires item == it.node && Shape(it) && Separate(it) && item.next == null
    requires Foot(t) !! Foot(it) && Foot(t) + Foot(it) <= mem.live
    modifies parent`child, item`next, item`prev, Tops(t.kids)`next, Tops(t.kids)`prev
    ensures ok && Fields(t) && Shapes(t.kids + [it])
    ensures Chain(parent.child, Nodes(t.kids + [it]))
  {
    hide Foots, Foot, Inner, Separates, Separate, Shape;
    ghost var ts, ns := t.kids, Nodes(t.kids);
    ChainOf(t);
    TopsApart(t);
    Guest(t, it);
    RootFields(t);
    ok := AddItemToArray(parent, item, ns);
    ShapesGrow(ts, it);
    assert Nodes(ts + [it]) == ns + [item];
  }

  // ---- the edits on trees

  lemma InsertedAt<T>(s: seq<T>, k: nat, x: T)
    requires k < |s|
    ensures |Inserted(s, k, x)| == |s| + 1
    ensures forall i :: 0 <= i <= |s| ==> Inserted(s, k, x)[i] == InsertedFrom(s, k, x, i)
  {}

  function InsertedFrom<T>(s: seq<T>, k: nat, x: T, i: int): T
    requires k < |s| && 0 <= i <= |s|
  {
    if i < k then s[i] else if i == k then x else s[i - 1]
  }

  lemma {:induction false} InsertTree(t: Tree, k: nat, it: Tree)
    requires Separate(t) && !t.shared && Separate(it) && Foot(t) !! Foot(it) && k < |t.kids|
    ensures var u := WithKids(t, Inserted(t.kids, k, it));
            Separate(u) && Foot(u) == Foot(t) + Foot(it)
    ensures ItemOf(WithKids(t, Inserted(t.kids, k, it)))
         == ItemOf(t).(kids := Inserted(ItemOf(t).kids, k, ItemOf(it)))
  {
    hide Foots, Foot, Separates, ItemsOf, Inserted;
    FootOwned(t);
    FootOwned(WithKids(t, Inserted(t.kids, k, it)));
    InsertFoots(t.kids, k, it);
    InsertPairwise(t.kids, k, it);
    InsertItems(t.kids, k, it);
  }

  lemma {:induction false} InsertItems(ts: seq<Tree>, k: nat, it: Tree)
    requires k < |ts|
    ensures ItemsOf(Inserted(ts, k, it)) == Inserted(ItemsOf(ts), k, ItemOf(it))
  {
    hide ItemsOf, ItemOf, Inserted;
    var us, items := Inserted(ts, k, it), Inserted(ItemsOf(ts), k, ItemOf(it));
    InsertedAt(ts, k, it);
    InsertedAt(ItemsOf(ts), k, ItemOf(it));
    forall i | 0 <= i < |us| ensures items[i] == ItemOf(us[i]) {
      if i < k { ItemsAt(ts, i); } else if i > k { ItemsAt(ts, i - 1); }
    }
    ItemsAre(us, items);
  }

  lemma {:induction false} InFoots(ts: seq<Tree>, i: nat, o: object)
    requires i < |ts| && o in Foot(ts[i])
    ensures o in Foots(ts)
  {
    hide Foots, Foot;
    assert Foot(ts[i]) <= Foots(ts);
  }

  lemma {:induction false} InsertFoots(ts: seq<Tree>, k: nat, it: Tree)
    requires k < |ts|
    ensures Foots(Inserted(ts, k, it)) == Foots(ts) + Foot(it)
  {
    hide Foots, Foot, Inserted;
    var us := Inserted(ts, k, it);
    InsertedAt(ts, k, it);
    forall o | o in Foots(us) ensures o in Foots(ts) + Foot(it) {
      FootsOf(us, o);
      var i :| 0 <= i < |us| && o in Foot(us[i]);
      if i < k { InFoots(ts, i, o); } else if i > k { InFoots(ts, i - 1, o); }
    }
    forall o | o in Foot(it) ensures o in Foots(us) {
      InFoots(us, k, o);
    }
    forall o | o in Foots(ts) ensures o in Foots(us) {
      FootsOf(ts, o);
      var j :| 0 <= j < |ts| && o in Foot(ts[j]);
      if j < k { InFoots(us, j, o); } else { InFoots(us, j + 1, o); }
    }
  }

  lemma {:induction false} InsertPairwise(ts: seq<Tree>, k: nat, it: Tree)
    requires Separates(ts) && Separate(it) && Foot(it) !! Foots(ts) && k < |ts|
    ensures Separates(Inserted(ts, k, it))
  {
    hide Foots, Foot, Separates, Separate;
    var us := Inserted(ts, k, it);
    InsertedAt(ts, k, it);
    SeparatesPairwise(ts);
    assert forall i :: 0 <= i < |ts| ==> Foot(ts[i]) <= Foots(ts);
    forall i, j | 0 <= i < j < |us| ensures Foot(us[i]) !! Foot(us[j]) {
      var p, q := if i < k then i else i - 1, if j < k then j else j - 1;
      if i != k && j != k { assert Foot(ts[p]) !! Foot(ts[q]); }
    }
    SeparatesPairwise(us);
  }

  lemma {:induction false} RemoveTree(t: Tree, k: nat)
    requires Separate(t) && !t.shared && k < |t.kids|
    ensures var u := WithKids(t, Removed(t.kids, k));
            Separate(u) && Foot(u) == Foot(t) - Foot(t.kids[k]) && Separate(t.kids[k])
    ensures ItemOf(WithKids(t, Removed(t.kids, k))) == ItemOf(t).(kids := Removed(ItemOf(t).kids, k))
  {
    hide Foots, Separates, ItemsOf, Foot, Removed;
    FootOwned(t);
    FootOwned(WithKids(t, Removed(t.kids, k)));
    assert Foot(t.kids[k]) <= Foots(t.kids);
    RemovedFoots(t.kids, k);
    RemovedSeparates(t.kids, k);
    RemovedItems(t.kids, k);
  }

  lemma RemovedAt<T>(s: seq<T>, k: nat)
    requires k < |s|
    ensures |Removed(s, k)| == |s| - 1
    ensures forall i :: 0 <= i < |s| - 1 ==> Removed(s, k)[i] == s[Over(i, k)]
  {}

  /** The old position of what is at `i` once `k` is removed. */
  function Over(i: int, k: int): int {
    if i < k then i else i + 1
  }

  lemma {:induction false} RemovedSeparates(ts: seq<Tree>, k: nat)
    requires Separates(ts) && k < |ts|
    ensures Separates(Removed(ts, k)) && Separate(ts[k])
  {
    hide Foots, Separates, Foot, Separate, Removed;
    var us := Removed(ts, k);
    RemovedAt(ts, k);
    SeparatesPairwise(ts);
    SeparatesPairwise(us);
  }

  lemma {:induction false} RemovedItems(ts: seq<Tree>, k: nat)
    requires k < |ts|
    ensures ItemsOf(Removed(ts, k)) == Removed(ItemsOf(ts), k)
  {
    hide ItemsOf, ItemOf, Removed;
    var us, items := Removed(ts, k), Removed(ItemsOf(ts), k);
    RemovedAt(ts, k);
    RemovedAt(ItemsOf(ts), k);
    forall i | 0 <= i < |us| ensures items[i] == ItemOf(us[i]) {
      ItemsAt(ts, Over(i, k));
    }
    ItemsAre(us, items);
  }

  lemma {:induction false} RemovedFoots(ts: seq<Tree>, k: nat)
    requires Separates(ts) && k < |ts|
    ensures Foots(Removed(ts, k)) == Foots(ts) - Foot(ts[k])
  {
    hide Foots, Foot, Separates, Removed;
    var us := Removed(ts, k);
    RemovedAt(ts, k);
    SeparatesPairwise(ts);
    forall o | o in Foots(us) ensures o in Foots(ts) - Foot(ts[k]) {
      FootsOf(us, o);
      var i :| 0 <= i < |us| && o in Foot(us[i]);
      InFoots(ts, Over(i, k), o);
      assert Foot(ts[Over(i, k)]) !! Foot(ts[k]);
    }
    forall o | o in Foots(ts) && o !in Foot(ts[k]) ensures o in Foots(us) {
      FootsOf(ts, o);
      var j :| 0 <= j < |ts| && o in Foot(ts[j]);
      var i := if j < k then j else j - 1;
      assert Over(i, k) == j;
      InFoots(us, i, o);
    }
  }

  /** Replacing is removing and inserting, in one place. */
  lemma {:induction false} ReplaceTree(t: Tree, k: nat, it: Tree)
    requires Separate(t) && !t.shared && Separate(it) && Foot(t) !! Foot(it) && k < |t.kids|
    ensures var u := WithKids(t, t.kids[k := it]);
            Separate(u) && Foot(u) == Foot(t) - Foot(t.kids[k]) + Foot(it)
    ensures ItemOf(WithKids(t, t.kids[k := it])) == ItemOf(t).(kids := ItemOf(t).kids[k := ItemOf(it)])
  {
    hide Foots, Separates, ItemsOf, Foot;
    RemoveTree(t, k);
    var r := WithKids(t, Removed(t.kids, k));
    if k < |r.kids| {
      InsertTree(r, k, it);
      assert Inserted(r.kids, k, it) == t.kids[k := it];
      assert Inserted(ItemOf(r).kids, k, ItemOf(it)) == ItemOf(t).kids[k := ItemOf(it)];
    } else {
      AppendTree(r, it);
      assert r.kids + [it] == t.kids[k := it];
      assert ItemOf(r).kids + [ItemOf(it)] == ItemOf(t).kids[k := ItemOf(it)];
    }
  }

  // ---- insert, detach, replace

  /** `cJSON_InsertItemInArray`, of a tree by itself. */
  method Insert(ghost mem: Memory, parent: Node, which: int, item: Node, ghost t: Tree, ghost it: Tree) returns (ok: bool)
    requires parent == t.node && Shape(t) && Separate(t) && !t.shared
    requires item == it.node && Shape(it) && Separate(it) && item.next == null
    requires Foot(t) !! Foot(it) && Foot(t) + Foot(it) <= mem.live
    modifies parent`child, item`next, item`prev, Tops(t.kids)`next, Tops(t.kids)`prev
    ensures ok <==> which >= 0
    ensures ok ==> var u := WithKids(t, Inserted(t.kids, which, it));
                   Shape(u) && Separate(u) && Foot(u) == Foot(t) + Foot(it)
    ensures ok ==> ItemOf(WithKids(t, Inserted(t.kids, which, it)))
                   == ItemOf(t).(kids := Inserted(ItemOf(t).kids, which, ItemOf(it)))
    ensures !ok ==> Shape(t) && Shape(it)
  {
    if which < 0 {
      return false;
    }
    InsertLinks(mem, parent, which, item, t, it);
    if which < |t.kids| { InsertTree(t, which, it); } else { AppendTree(t, it); }
    InShape(WithKids(t, Inserted(t.kids, which, it)));
    return true;
  }

  method InsertLinks(ghost mem: Memory, parent: Node, which: nat, item: Node, ghost t: Tree, ghost it: Tree)
    requires parent == t.node && Shape(t) && Separate(t) && !t.shared
    requires item == it.node && Shape(it) && Separate(it) && item.next == null
    requires Foot(t) !! Foot(it) && Foot(t) + Foot(it) <= mem.live
    modifies parent`child, item`next, item`prev, Tops(t.kids)`next, Tops(t.kids)`prev
    ensures Fields(t) && Shapes(Inserted(t.kids, which, it))
    ensures Chain(parent.child, Nodes(Inserted(t.kids, which, it)))
  {
    hide Foots, Foot, Inner, Separates, Separate, Shape, Inserted;
    ghost var ts, ns := t.kids, Nodes(t.kids);
    ChainOf(t);
    TopsApart(t);
    Guest(t, it);
    RootFields(t);
    var ok := InsertItemInArray(parent, which, item, ns);
    InsertedNodes(ts, which, it);
    ShapesInsert(ts, which, it);
  }

  lemma {:induction false} InsertedNodes(ts: seq<Tree>, k: nat, it: Tree)
    ensures Nodes(Inserted(ts, k, it)) == Inserted(Nodes(ts), k, it.node)
  {}

  lemma {:induction false} ShapesInsert(ts: seq<Tree>, k: nat, it: Tree)
    requires Shapes(ts) && Shape(it)
    ensures Shapes(Inserted(ts, k, it))
  {
    hide Shape, Foots, Inserted;
    if k < |ts| {
      InsertedAt(ts, k, it);
    } else {
      hide Shapes;
      ShapesGrow(ts, it);
      InsertedEnd(ts, k, it);
    }
  }

  lemma InsertedEnd<T>(s: seq<T>, k: nat, x: T)
    requires k >= |s|
    ensures Inserted(s, k, x) == s + [x]
  {}

  /** `cJSON_DetachItemViaPointer`: the tree without the child, and the child by itself. */
  method Detach(ghost mem: Memory, parent: Node, item: Node, ghost k: nat, ghost t: Tree) returns (detached: Node?)
    requires parent == t.node && Shape(t) && Separate(t) && !t.shared && Foot(t) <= mem.live
    requires k < |t.kids| && item == t.kids[k].node
    modifies parent`child, Tops(t.kids)`next, Tops(t.kids)`prev
    ensures detached == item && item.next == null && item.prev == null
    ensures var u := WithKids(t, Removed(t.kids, k));
            && Shape(u) && Separate(u) && Foot(u) == Foot(t) - Foot(t.kids[k])
            && Shape(t.kids[k]) && Separate(t.kids[k])
    ensures ItemOf(WithKids(t, Removed(t.kids, k))) == ItemOf(t).(kids := Removed(ItemOf(t).kids, k))
  {
    hide Shape, Separate, Removed;
    detached := DetachLinks(mem, parent, item, k, t);
    RemoveTree(t, k);
    InShape(WithKids(t, Removed(t.kids, k)));
  }

  method DetachLinks(ghost mem: Memory, parent: Node, item: Node, ghost k: nat, ghost t: Tree) returns (detached: Node?)
    requires parent == t.node && Shape(t) && Separate(t) && !t.shared && Foot(t) <= mem.live
    requires k < |t.kids| && item == t.kids[k].node
    modifies parent`child, Tops(t.kids)`next, Tops(t.kids)`prev
    ensures detached == item && item.next == null && item.prev == null
    ensures Fields(t) && Shapes(t.kids) && Shapes(Removed(t.kids, k)) && Shape(t.kids[k])
    ensures Chain(parent.child, Nodes(Removed(t.kids, k)))
  {
    hide Foots, Foot, Inner, Separates, Separate, Shape, Removed, Chain, Nodes;
    ghost var ts, ns := t.kids, Nodes(t.kids);
    ChainOf(t);
    TopsApart(t);
    KidsIn(t);
    RootFields(t);
    detached := DetachItemViaPointer(parent, item, k, ns);
    RemovedNodes(ts, k);
    ShapesRemove(ts, k);
  }

  lemma {:induction false} ShapesRemove(ts: seq<Tree>, k: nat)
    requires Shapes(ts) && k < |ts|
    ensures Shapes(Removed(ts, k)) && Shape(ts[k])
  {
    hide Shape, Removed;
    RemovedAt(ts, k);
  }

  lemma {:induction false} KidsIn(t: Tree)
    requires !t.shared
    ensures forall i :: 0 <= i < |t.kids| ==> Inner(t.kids[i]) <= Foot(t)
    ensures Tops(t.kids) <= Foot(t)
  {
    hide Foots;
    TopsOwned(t.kids);
    assert forall i :: 0 <= i < |t.kids| ==> Foot(t.kids[i]) <= Foots(t.kids);
  }

  lemma {:induction false} RemovedNodes(ts: seq<Tree>, k: nat)
    requires k < |ts|
    ensures Nodes(Removed(ts, k)) == Removed(Nodes(ts), k)
  {}

  /** `cJSON_ReplaceItemViaPointer`: the child makes room for a tree by itself, and is deleted. Replacing it by itself does nothing. */
  method Replace(mem: Memory, parent: Node, item: Node, replacement: Node, ghost k: nat, ghost t: Tree, ghost it: Tree)
    returns (ok: bool)
    requires parent == t.node && Shape(t) && Separate(t) && !t.shared && Foot(t) <= mem.live
    requires k < |t.kids| && item == t.kids[k].node
    requires replacement != item ==>
               && replacement == it.node && Shape(it) && Separate(it)
               && Foot(t) !! Foot(it) && Foot(it) <= mem.live
    modifies mem`live, parent`child, replacement`next, replacement`prev, Tops(t.kids)`next, Tops(t.kids)`prev
    ensures ok
    ensures replacement == item ==> mem.live == old(mem.live) && Shape(t)
    ensures replacement != item ==>
              var u := WithKids(t, t.kids[k := it]);
              && Shape(u) && Separate(u) && Foot(u) == Foot(t) - Foot(t.kids[k]) + Foot(it)
              && mem.live == old(mem.live) - Foot(t.kids[k])
              && ItemOf(u) == ItemOf(t).(kids := ItemOf(t).kids[k := ItemOf(it)])
  {
    hide Shape, Separate, Foot, ItemOf, Chain, Shapes;
    ghost var u := WithKids(t, t.kids[k := it]);
    if replacement == item {
      return true;
    }
    KidIn(t, k);
    RemoveTree(t, k);
    ReplaceTree(t, k, it);
    ReplaceInTree(mem, parent, item, replacement, k, t, it);
    InShape(u);
    DeleteBeside(mem, item, t.kids[k], u);
    return true;
  }

  lemma {:induction false} KidIn(t: Tree, k: nat)
    requires !t.shared && k < |t.kids|
    ensures Foot(t.kids[k]) <= Foot(t)
  {
    hide Foots;
    FootOwned(t);
    assert Foot(t.kids[k]) <= Foots(t.kids);
  }

  method DeleteBeside(mem: Memory, item: Node, ghost kt: Tree, ghost u: Tree)
    requires item == kt.node && item.next == null && Shape(kt) && Separate(kt) && Foot(kt) <= mem.live
    requires Shape(u) && Foot(u) <= mem.live
    modifies mem`live
    ensures mem.live == old(mem.live) - Foot(kt)
    ensures Shape(u)
  {
    hide *;
    AsideTree(mem, u);
    ShapeIsLoose(kt);
    DeleteRoot(mem, item, kt);
  }

  method ReplaceInTree(ghost mem: Memory, parent: Node, item: Node, replacement: Node, ghost k: nat, ghost t: Tree, ghost it: Tree)
    requires parent == t.node && Shape(t) && Separate(t) && !t.shared
    requires k < |t.kids| && item == t.kids[k].node
    requires replacement == it.node && Shape(it) && Separate(it)
    requires Foot(t) !! Foot(it) && Foot(t) + Foot(it) <= mem.live
    modifies parent`child, replacement`next, replacement`prev, Tops(t.kids)`next, Tops(t.kids)`prev
    ensures item.next == null && Fields(t) && Shape(t.kids[k]) && Shapes(t.kids[k := it])
    ensures Chain(parent.child, Nodes(t.kids[k := it]))
  {
    hide Foots, Foot, Inner, Separates, Separate, Shape, Chain, Nodes;
    ghost var ts, ns := t.kids, Nodes(t.kids);
    ChainOf(t);
    TopsApart(t);
    KidsIn(t);
    Guest(t, it);
    RootFields(t);
    ReplaceLinks(parent, item, replacement, k, ns);
    ReplacedNodes(ts, k, it);
    ShapesReplace(ts, k, it);
  }

  lemma {:induction false} ReplacedNodes(ts: seq<Tree>, k: nat, it: Tree)
    requires k < |ts|
    ensures Nodes(ts[k := it]) == Nodes(ts)[k := it.node]
  {}

  lemma {:induction false} ShapesReplace(ts: seq<Tree>, k: nat, it: Tree)
    requires Shapes(ts) && Shape(it) && k < |ts|
    ensures Shapes(ts[k := it]) && Shape(ts[k])
  {
    hide Shape;
  }
}
