/**
 Trees as they are read: through `child` and `next`, into what references
 borrow, too. Here blocks may be shared; who owns them does not matter.
 */
module Reading {
  import opened Bytes
  import opened Heap
  import opened Trees

  /** All that is read of a tree, owned or borrowed. */
  ghost function Reach(t: Tree): (r: set<object>)
    ensures t.node in r && Block(t.name) <= r && Block(t.text) <= r && Reaches(t.kids) <= r
    ensures Foreign(r) == {}
    decreases t, 0
  {
    {t.node} + Block(t.name) + Block(t.text) + Reaches(t.kids)
  }

  ghost function Reaches(ts: seq<Tree>): (r: set<object>)
    ensures forall i :: 0 <= i < |ts| ==> Reach(ts[i]) <= r
    ensures Foreign(r) == {}
    decreases ts, 0
  {
    if ts == [] then {} else Reaches(Init(ts)) + Reach(Last(ts))
  }

  ghost predicate Readable(t: Tree)
    reads Reach(t)
    decreases t, 0
  {
    Fields(t) && t.node.child == Head(t.kids) && List(t.kids)
  }

  /** Readable trees that lead from one to the next. */
  ghost predicate List(ts: seq<Tree>)
    reads Reaches(ts)
    decreases ts, 0
  {
    Forward(ts) && forall i :: 0 <= i < |ts| ==> Readable(ts[i])
  }

  lemma {:induction false} ListReadable(ts: seq<Tree>, i: nat)
    requires List(ts) && i < |ts|
    ensures Readable(ts[i])
  {
    hide Forward;
  }

  lemma {:induction false} ListSteps(ts: seq<Tree>, i: nat)
    requires List(ts) && i < |ts|
    ensures ts[i].node.next == if i + 1 < |ts| then ts[i + 1].node else null
  {
    hide Readable;
    Steps(ts, i);
  }

  lemma {:induction false} AsideReach(o: object, ts: seq<Tree>)
    requires !(o is Node) && !(o is array<byte>)
    ensures o !in Reaches(ts)
  {
    hide Reaches;
    assert o in Reaches(ts) ==> o in Foreign(Reaches(ts));
  }

  lemma {:induction false} AsideRead(o: object, t: Tree)
    requires !(o is Node) && !(o is array<byte>)
    ensures o !in Reach(t)
  {
    hide Reach;
    assert o in Reach(t) ==> o in Foreign(Reach(t));
  }

  // ---- trees without references

  /** They own all that is read, */
  lemma {:induction false} PlainReach(t: Tree)
    requires Plain(t)
    ensures Reach(t) == Foot(t)
    decreases t, 0
  {
    hide Foots, Reaches;
    PlainReaches(t.kids);
  }

  lemma {:induction false} PlainReaches(ts: seq<Tree>)
    requires Plains(ts)
    ensures Reaches(ts) == Foots(ts)
    decreases ts, 0
  {
    hide Reach, Foot, Plain;
    if ts != [] {
      PlainReaches(Init(ts));
      PlainReach(Last(ts));
    }
  }

  /** and can be read. */
  lemma {:induction false} PlainReadable(t: Tree)
    requires Plain(t) && Shape(t)
    ensures Readable(t)
  {
    hide Forward;
    forall i | 0 <= i < |t.kids| ensures Readable(t.kids[i]) {
      PlainReadable(t.kids[i]);
    }
  }

  // ---- references

  /** The tree at a node that borrows from another one. */
  ghost function Borrowed(t: Tree, node: Node): Tree {
    t.(node := node, name := NoStr, shared := true)
  }

  /** `create_reference`: the value is the other tree's, and only the node is new and its own. */
  method CreateReference(mem: Memory, item: Node, ghost t: Tree) returns (reference: Node?)
    requires item == t.node && Readable(t) && Reach(t) <= mem.live
    modifies mem
    ensures mem.refusals == old(mem.refusals) + (if reference == null then 1 else 0)
    ensures Readable(t)
    ensures reference == null ==> mem.live == old(mem.live)
    ensures reference != null ==>
              var r := Borrowed(t, reference);
              && fresh(reference) && mem.live == old(mem.live) + {reference}
              && reference !in old(mem.live) && reference.next == reference.prev == null
              && Shape(r) && Separate(r) && Foot(r) == {reference}
              && Readable(r) && ItemOf(r) == ItemOf(t).(name := NoString)
  {
    hide Readable, Reach, Shape, Separate, Foot, ItemOf;
    AsideRead(mem, t);
    reference := mem.NewNode();
    if reference != null {
      Borrow(reference, item, t);
    }
  }

  /** The node as `memcpy` and the lines behind it leave it. */
  method Borrow(reference: Node, item: Node, ghost t: Tree)
    requires item == t.node && Readable(t) && reference !in Reach(t)
    requires reference.name == null && reference.constKey == NoString && reference.next == reference.prev == null
    modifies reference`kind, reference`num, reference`text, reference`child, reference`reference
    ensures Readable(t)
    ensures var r := Borrowed(t, reference);
            && Shape(r) && Separate(r) && Foot(r) == {reference}
            && Readable(r) && ItemOf(r) == ItemOf(t).(name := NoString)
  {
    hide List, Reaches, ItemsOf, Foots;
    reference.kind, reference.num, reference.text := item.kind, item.num, item.text;
    reference.child := item.child;
    reference.reference := true;
  }

  /** Deleting the reference leaves what it borrows alone. */
  method DeleteReference(mem: Memory, reference: Node, ghost t: Tree)
    requires Shape(Borrowed(t, reference)) && reference.next == null && reference in mem.live
    modifies mem`live
    ensures mem.live == old(mem.live) - {reference}
  {
    ghost var r := Borrowed(t, reference);
    FootOwned(r);
    DeleteRoot(mem, reference, r);
  }
}
