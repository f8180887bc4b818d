/**
 `cJSON_Duplicate`: a deep copy in blocks of its own, or nothing at all.
 */
module Duplication {
  import opened Bytes
  import opened Items
  import opened Heap
  import opened Trees
  import opened Reading

  /** The copy's recursion reaches the bottom: no children below the limit. */
  predicate WithinLimit(it: Item, depth: nat) {
    it.kids == [] || (depth < CIRCULAR_LIMIT && AllWithinLimit(it.kids, depth + 1))
  }

  predicate AllWithinLimit(kids: seq<Item>, depth: nat) {
    forall i :: 0 <= i < |kids| ==> WithinLimit(kids[i], depth)
  }

  /** How many generations there are below the item. */
  function Generations(it: Item): nat {
    if it.kids == [] then 0 else 1 + MostGenerations(it.kids)
  }

  function MostGenerations(kids: seq<Item>): (n: nat)
    ensures forall i :: 0 <= i < |kids| ==> Generations(kids[i]) <= n
  {
    if kids == [] then 0
    else
      var n, m := Generations(kids[0]), MostGenerations(kids[1..]);
      assert forall i :: 1 <= i < |kids| ==> kids[i] == kids[1..][i - 1];
      if n < m then m else n
  }

  /** The limit is ten thousand of them. */
  lemma {:induction false} LimitIs(it: Item, depth: nat)
    ensures WithinLimit(it, depth) <==> it.kids == [] || depth + Generations(it) <= 10000
    decreases it, 0
  {
    if it.kids != [] { LimitIsAll(it.kids, depth + 1); }
  }

  lemma {:induction false} LimitIsAll(kids: seq<Item>, depth: nat)
    requires kids != [] && 0 < depth
    ensures depth <= 10000 && AllWithinLimit(kids, depth) <==> depth + MostGenerations(kids) <= 10000
    decreases kids, 0
  {
    LimitIs(kids[0], depth);
    if |kids| > 1 {
      LimitIsAll(kids[1..], depth);
    }
    assert forall i :: 1 <= i < |kids| ==> kids[i] == kids[1..][i - 1];
    assert AllWithinLimit(kids, depth) <==> WithinLimit(kids[0], depth) && AllWithinLimit(kids[1..], depth);
  }

  /** A tree that the copy reads and leaves alone: of references it reads what they borrow. */
  ghost predicate Source(mem: Memory, t: Tree)
    reads mem, Reach(t)
  {
    Readable(t) && Reach(t) <= mem.live
  }

  /** A new tree, nothing else having been allocated since `base`. */
  ghost predicate Fresh(mem: Memory, base: set<object>, c: Tree)
    reads mem, c.node, Inner(c)
  {
    && Shape(c) && Separate(c) && Plain(c) && c.node.next == null && c.node.prev == null
    && Foot(c) !! base && mem.live == base + Foot(c)
  }

  /** `cJSON_Duplicate_rec`. */
  method DuplicateRec(mem: Memory, item: Node, depth: nat, recurse: bool, ghost t: Tree)
    returns (copy: Node?, ghost made: seq<Tree>)
    requires item == t.node && Source(mem, t)
    modifies mem
    ensures Source(mem, t) && mem.refusals >= old(mem.refusals)
    ensures copy != null ==>
              && |made| == 1 && made[0].node == copy && fresh(copy) && Fresh(mem, old(mem.live), made[0])
              && ItemOf(made[0]) == (if recurse then ItemOf(t) else ItemOf(t).(kids := []))
              && (recurse ==> WithinLimit(ItemOf(t), depth))
    ensures copy == null ==>
              && mem.live == old(mem.live)
              && (mem.refusals > old(mem.refusals) || (recurse && !WithinLimit(ItemOf(t), depth)))
    decreases t, 2
  {
    hide WithinLimit, Foot, Foots, Shape, Separate, Readable, Reach, ItemOf;
    made := [];
    var newitem;
    ghost var root;
    newitem, root := CopyRoot(mem, item, t);
    if newitem == null {
      return null, made;
    }
    var ok := true;
    if recurse {
      ok, root := CopyKids(mem, item, newitem, depth, t, root, old(mem.live));
    }
    copy := null;
    if ok {
      copy, made := newitem, [root];
    } else {
      DeleteRoot(mem, newitem, root);
    }
  }

  /** The node with its strings, and no children. */
  method CopyRoot(mem: Memory, item: Node, ghost t: Tree) returns (copy: Node?, ghost c: Tree)
    requires item == t.node && Source(mem, t)
    modifies mem
    ensures Source(mem, t) && mem.refusals >= old(mem.refusals)
    ensures copy == null ==> mem.live == old(mem.live) && mem.refusals > old(mem.refusals)
    ensures copy != null ==>
              && c.node == copy && fresh(copy) && Fresh(mem, old(mem.live), c)
              && c.kids == [] && ItemOf(c) == ItemOf(t).(kids := [])
  {
    hide Shape, Separate, Fresh, ItemOf, List, Reaches;
    AsideRead(mem, t);
    AsideReach(mem, t.kids);
    copy, c := CopyFields(mem, item, t);
    if copy != null {
      FreshLive(mem, old(mem.live), c);
    }
  }

  lemma {:induction false} FreshLive(mem: Memory, base: set<object>, c: Tree)
    requires Fresh(mem, base, c)
    ensures base <= mem.live
  {}

  method CopyFields(mem: Memory, item: Node, ghost t: Tree) returns (copy: Node?, ghost c: Tree)
    requires item == t.node && Fields(t) && item in mem.live && Block(t.text) + Block(t.name) <= mem.live
    modifies mem
    ensures mem.refusals >= old(mem.refusals)
    ensures copy == null ==> mem.live == old(mem.live) && mem.refusals > old(mem.refusals)
    ensures copy != null ==>
              && c.node == copy && fresh(copy) && Fresh(mem, old(mem.live), c)
              && c.kids == [] && ItemOf(c) == ItemOf(t).(kids := [])
  {
    hide Shape, Loose, Separate, Foot, ItemOf, Fields;
    c := t;
    copy := mem.NewNode();
    if copy == null {
      return;
    }
    var ok;
    ghost var text, name;
    ok, text, name := CopyStrings(mem, item, copy, t);
    c := Tree(copy, t.kind, t.num, text, name, []);
    LeafShape(c);
    FootOwned(c);
    if ok {
      ItemsAlike(t, c);
    } else {
      ShapeIsLoose(c);
      DeleteRoot(mem, copy, c);
      copy := null;
    }
  }

  /** Everything but the links is copied; without success, some of it. */
  method CopyStrings(mem: Memory, item: Node, copy: Node, ghost t: Tree) returns (ok: bool, ghost text: Str, ghost name: Str)
    requires item == t.node && Fields(t) && copy != item && Block(t.text) + Block(t.name) <= mem.live
    requires copy.text == null && copy.name == null && copy.constKey == NoString
    modifies mem, copy`kind, copy`num, copy`text, copy`name, copy`constKey
    ensures copy.kind == t.kind && copy.num == t.num
    ensures copy.text == Pointer(text) && Written(text) && !text.Const?
    ensures copy.name == Pointer(name) && Written(name) && copy.constKey == ConstOf(name)
    ensures Block(text) !! Block(name) && Block(text) + Block(name) !! old(mem.live)
    ensures mem.live == old(mem.live) + Block(text) + Block(name)
    ensures mem.refusals >= old(mem.refusals) && (!ok ==> mem.refusals > old(mem.refusals))
    ensures ok ==> CharsOf(text) == CharsOf(t.text) && CharsOf(name) == CharsOf(t.name)
  {
    copy.kind := item.kind;
    copy.num := item.num;
    ok, text, name := true, NoStr, NoStr;
    if item.text != null {
      copy.text, text := CopyString(mem, item.text, t.text.chars);
      ok := copy.text != null;
    }
    if ok && item.constKey != NoString {
      copy.constKey, name := item.constKey, t.name;
    } else if ok && item.name != null {
      copy.name, name := CopyString(mem, item.name, t.name.chars);
      ok := copy.name != null;
    }
  }

  lemma {:induction false} ItemsAlike(t: Tree, c: Tree)
    requires c.kids == [] && c.kind == t.kind && c.num == t.num
    requires CharsOf(c.text) == CharsOf(t.text) && CharsOf(c.name) == CharsOf(t.name)
    ensures ItemOf(c) == ItemOf(t).(kids := [])
  {}

  /** The children of the source, as the loop finds them. */
  lemma {:induction false} SourceKids(mem: Memory, t: Tree)
    requires Source(mem, t)
    ensures t.node.child == Head(t.kids) && List(t.kids)
    ensures forall i :: 0 <= i < |t.kids| ==> Source(mem, t.kids[i])
  {
    hide Reaches, Forward;
    forall i | 0 <= i < |t.kids| ensures Reach(t.kids[i]) <= Reach(t) {
      assert Reach(t.kids[i]) <= Reaches(t.kids);
    }
  }

  /** The copy so far: the node with the children made for it. */
  lemma {:induction false} SoFar(c: Tree, ts: seq<Tree>)
    requires c.kids == [] && Fields(c) && Separate(c) && !c.shared
    requires c.node.child == Head(ts) && Forward(ts) && Shapes(ts) && Separates(ts) && Plains(ts) && Foot(c) !! Foots(ts)
    ensures var d := c.(kids := ts);
            && Plain(d) && Loose(d) && (Backward(ts) ==> Shape(d)) && Separate(d) && Foot(d) == Foot(c) + Foots(ts)
            && ItemOf(d) == ItemOf(c).(kids := ItemsOf(ts))
  {
    hide Separates, Foots, Forward, Backward, ItemsOf;
    var d := c.(kids := ts);
    FootOwned(c);
    FootOwned(d);
    NoFoots();
    assert Owned(d) == Block(c.text) + Foots(ts) && Owned(c) == Block(c.text);
  }

  /** A copy, perhaps without all of its children: it can be deleted. */
  ghost predicate Partial(mem: Memory, t: Tree, d: Tree, copy: Node, base: set<object>)
    reads mem, Reach(t), copy, Foot(d)
  {
    && Source(mem, t)
    && d.node == copy && copy.next == null && copy.prev == null && Loose(d) && Separate(d) && Plain(d)
    && Foot(d) !! base && mem.live == base + Foot(d)
  }

  /** The loop of `cJSON_Duplicate_rec`. On failure what is there of the copy is left to be deleted. */
  method CopyKids(mem: Memory, item: Node, copy: Node, depth: nat, ghost t: Tree, ghost c: Tree, ghost base: set<object>)
    returns (ok: bool, ghost d: Tree)
    requires item == t.node && Source(mem, t) && Reach(t) <= base
    requires copy == c.node && Fresh(mem, base, c) && c.kids == []
    modifies mem, copy
    ensures Partial(mem, t, d, copy, base) && mem.refusals >= old(mem.refusals)
    ensures ok ==> Shape(d) && ItemOf(d) == ItemOf(c).(kids := ItemOf(t).kids) && WithinLimit(ItemOf(t), depth)
    ensures !ok ==> mem.refusals > old(mem.refusals) || !WithinLimit(ItemOf(t), depth)
    decreases t, 1
  {
    hide Readable, Reach, Shape, Separate, Separates, Foot, Foots, Copying, Partial, ItemOf, ItemsOf, WithinLimit;
    ghost var ts := [];
    ghost var i := 0;
    var head, tail: Node? := null, null;
    var child := item.child;
    NoList(mem);
    Begin(mem, t, c, base);
    SourceKids(mem, t);
    assert ItemsOf(t.kids)[..0] == [];
    while child != null
      invariant i <= |t.kids| && child == (if i < |t.kids| then t.kids[i].node else null)
      invariant Copying(mem, t, c, base, head, tail, ts)
      invariant head != null ==> fresh(head)
      invariant tail != null ==> fresh(tail)
      invariant (head == null <==> tail == null) && mem.refusals >= old(mem.refusals)
      invariant ItemsOf(ts) == ItemsOf(t.kids)[..i]
      invariant FirstFit(t, i, depth)
      decreases |t.kids| - i
    {
      if depth >= CIRCULAR_LIMIT {
        d := Abandon(mem, t, c, base, head, tail, ts);
        Unfit(t, i, depth);
        return false, d;
      }
      ghost var more;
      ok, head, tail, more := CopyKid(mem, child, copy, depth, i, t, c, base, head, tail, ts);
      ts := more;
      if !ok {
        d := Abandon(mem, t, c, base, head, tail, ts);
        if mem.refusals == old(mem.refusals) {
          Unfit(t, i, depth);
        }
        return;
      }
      NextFits(t, i, depth);
      CopyingSource(mem, t, c, base, head, tail, ts);
      SourceKids(mem, t);
      child := child.next;
      i := i + 1;
    }
    AllFit(t, depth);
    d := Complete(mem, copy, t, c, base, head, tail, ts);
    assert ItemsOf(t.kids)[..i] == ItemsOf(t.kids);
    return true, d;
  }

  /** What the loop keeps: the source, the copy's own fields and the children made so far, */
  ghost predicate Standing(t: Tree, c: Tree, head: Node?, tail: Node?, ts: seq<Tree>)
    reads Reach(t), Foot(c), Foots(ts)
  {
    && Readable(t)
    && c.kids == [] && !c.shared && Fields(c) && Separate(c) && c.node.next == null && c.node.prev == null && c.node.child == head
    && Growing(head, tail, ts)
  }

  /** side by side, what was live before the copy being `base`. */
  ghost predicate Copying(mem: Memory, t: Tree, c: Tree, base: set<object>, head: Node?, tail: Node?, ts: seq<Tree>)
    reads mem, Reach(t), Foot(c), Foots(ts)
  {
    Standing(t, c, head, tail, ts) && Beside(t, c, base, ts, mem.live)
  }

  ghost predicate Beside(t: Tree, c: Tree, base: set<object>, ts: seq<Tree>, live: set<object>) {
    && Reach(t) <= base && Foot(c) !! base && base + Foot(c) !! Foots(ts)
    && live == base + Foot(c) + Foots(ts)
  }

  /** One child copied, with all that is there left alone. */
  method CopyKidBeside(mem: Memory, child: Node, depth: nat, ghost i: nat, ghost t: Tree, ghost c: Tree, ghost base: set<object>,
                       ghost head: Node?, ghost tail: Node?, ghost ts: seq<Tree>)
    returns (newchild: Node?, ghost made: seq<Tree>)
    requires Copying(mem, t, c, base, head, tail, ts)
    requires i < |t.kids| && child == t.kids[i].node
    modifies mem
    ensures mem.refusals >= old(mem.refusals)
    ensures newchild != null ==>
              && |made| == 1 && made[0].node == newchild && fresh(newchild) && Fresh(mem, old(mem.live), made[0])
              && ItemOf(made[0]) == ItemOf(t.kids[i]) && WithinLimit(ItemOf(t.kids[i]), depth)
    ensures newchild == null ==>
              && mem.live == old(mem.live)
              && (mem.refusals > old(mem.refusals) || !WithinLimit(ItemOf(t.kids[i]), depth))
    ensures Standing(t, c, head, tail, ts)
    decreases t, 0, 0
  {
    hide Shape, Separate, Foot, Foots, Inner, Readable, Reach, Growing, ItemOf, WithinLimit;
    SourceKids(mem, t);
    AsideRead(mem, t);
    AsideTree(mem, c);
    Aside(mem, ts);
    FootOwned(c);
    newchild, made := DuplicateRec(mem, child, depth, true, t.kids[i]);
  }

  lemma {:induction false} CopyingSource(mem: Memory, t: Tree, c: Tree, base: set<object>, head: Node?, tail: Node?, ts: seq<Tree>)
    requires Copying(mem, t, c, base, head, tail, ts)
    ensures Source(mem, t) && c.node.next == null && c.node.prev == null
  {
    hide Readable, Reach, Shape, Separate, Foot, Foots, Growing;
  }

  lemma {:induction false} Begin(mem: Memory, t: Tree, c: Tree, base: set<object>)
    requires Source(mem, t) && Reach(t) <= base && Fresh(mem, base, c) && c.kids == []
    ensures Copying(mem, t, c, base, null, null, [])
  {
    hide Separate, Foot;
    RootFields(c);
    ShapeIsLoose(c);
  }

  ghost predicate FirstFit(t: Tree, n: nat, depth: nat)
    requires n <= |t.kids|
  {
    (n > 0 ==> depth < CIRCULAR_LIMIT) && forall j :: 0 <= j < n ==> WithinLimit(ItemOf(t.kids[j]), depth + 1)
  }

  lemma {:induction false} NextFits(t: Tree, i: nat, depth: nat)
    requires i < |t.kids| && FirstFit(t, i, depth) && depth < CIRCULAR_LIMIT && WithinLimit(ItemOf(t.kids[i]), depth + 1)
    ensures FirstFit(t, i + 1, depth)
    ensures ItemsOf(t.kids)[..i + 1] == ItemsOf(t.kids)[..i] + [ItemOf(t.kids[i])]
  {
    hide WithinLimit;
    ItemsAt(t.kids, i);
  }

  lemma {:induction false} AllFit(t: Tree, depth: nat)
    requires FirstFit(t, |t.kids|, depth)
    ensures WithinLimit(ItemOf(t), depth) && ItemOf(t).kids == ItemsOf(t.kids)
  {
    forall i | 0 <= i < |t.kids| ensures WithinLimit(ItemOf(t).kids[i], depth + 1) {
      ItemsAt(t.kids, i);
    }
  }

  lemma {:induction false} Unfit(t: Tree, i: nat, depth: nat)
    requires i < |t.kids| && (depth >= CIRCULAR_LIMIT || !WithinLimit(ItemOf(t.kids[i]), depth + 1))
    ensures !WithinLimit(ItemOf(t), depth)
  {
    ItemsAt(t.kids, i);
    assert ItemOf(t).kids[i] == ItemOf(t.kids[i]);
  }

  /** The copy so far, given up. */
  ghost method Abandon(mem: Memory, t: Tree, c: Tree, base: set<object>, head: Node?, tail: Node?, ts: seq<Tree>) returns (d: Tree)
    requires Copying(mem, t, c, base, head, tail, ts)
    ensures Partial(mem, t, d, c.node, base)
  {
    hide Readable, Reach, Shape, Loose, Separate, Separates, Foot, Foots, Forward, Backlinks;
    SoFar(c, ts);
    d := c.(kids := ts);
  }

  /** The copy with all its children, its list closed. */
  method Complete(mem: Memory, copy: Node, ghost t: Tree, ghost c: Tree, ghost base: set<object>,
                  head: Node?, tail: Node?, ghost ts: seq<Tree>)
    returns (ghost d: Tree)
    requires copy == c.node && Copying(mem, t, c, base, head, tail, ts)
    modifies if head == null then {} else {head}
    ensures Partial(mem, t, d, copy, base) && Shape(d)
    ensures ItemOf(d) == ItemOf(c).(kids := ItemsOf(ts))
  {
    hide Readable, Reach, Shape, Loose, Separate, Separates, Foot, Foots, Forward, Backward, Backlinks, ItemOf, ItemsOf;
    HeadOutside(mem, t, c, base, head, tail, ts);
    FinishList(head, tail, ts);
    assert Source(mem, t);
    hide Source, Fields, Plain, Plains, Shapes;
    SoFar(c, ts);
    d := c.(kids := ts);
    ShapeIsLoose(d);
  }

  lemma {:induction false} HeadOutside(mem: Memory, t: Tree, c: Tree, base: set<object>, head: Node?, tail: Node?, ts: seq<Tree>)
    requires Copying(mem, t, c, base, head, tail, ts)
    ensures head != null ==> head !in Reach(t) && head !in Foot(c)
    ensures tail != null ==> tail !in Reach(t) && tail !in Foot(c)
    ensures Foot(c) !! Foots(ts) && Inner(c) <= Foot(c) && c.node in Foot(c)
    ensures Foot(c) !! Reach(t) && c.node !in Foots(ts) && Foots(ts) !! Reach(t)
  {
    hide Readable, Reach, Shape, Separate, Separates, Foots;
    TopsOwned(ts);
  }

  /** One turn of the loop: a child copied and attached. */
  method CopyKid(mem: Memory, child: Node, copy: Node, depth: nat, ghost i: nat, ghost t: Tree, ghost c: Tree, ghost base: set<object>,
                 head: Node?, tail: Node?, ghost ts: seq<Tree>)
    returns (ok: bool, newHead: Node?, newTail: Node?, ghost more: seq<Tree>)
    requires Copying(mem, t, c, base, head, tail, ts) && copy == c.node
    requires i < |t.kids| && child == t.kids[i].node
    modifies mem, copy`child, if tail == null then {} else {tail}
    ensures mem.refusals >= old(mem.refusals)
    ensures Copying(mem, t, c, base, newHead, newTail, more)
    ensures !ok ==> newHead == head && newTail == tail && (mem.refusals > old(mem.refusals) || !WithinLimit(ItemOf(t.kids[i]), depth + 1))
    ensures ok ==>
              && newTail != null && fresh(newTail) && newHead == (if head == null then newTail else head)
              && ItemsOf(more) == ItemsOf(ts) + [ItemOf(t.kids[i])] && WithinLimit(ItemOf(t.kids[i]), depth + 1)
    decreases t, 0, 1
  {
    hide Readable, Reach, Shape, Separate, Separates, Foot, Foots, Standing, Beside, ItemOf, ItemsOf, WithinLimit;
    newHead, newTail, more := head, tail, ts;
    var newchild;
    ghost var made;
    newchild, made := CopyKidBeside(mem, child, depth + 1, i, t, c, base, head, tail, ts);
    if newchild == null {
      return false, newHead, newTail, more;
    }
    Snoc(ts, made[0]);
    more := ts + made;
    assert made == [made[0]];
    newTail := newchild;
    newHead := AttachKid(mem, copy, newchild, old(mem.live), t, c, base, head, tail, ts, made[0]);
    ok := true;
  }

  method AttachKid(ghost mem: Memory, copy: Node, newchild: Node, ghost live: set<object>, ghost t: Tree, ghost c: Tree, ghost base: set<object>,
                   head: Node?, tail: Node?, ghost ts: seq<Tree>, ghost k: Tree)
    returns (newHead: Node)
    requires Standing(t, c, head, tail, ts) && copy == c.node
    requires Beside(t, c, base, ts, live)
    requires k.node == newchild && Fresh(mem, live, k)
    modifies copy`child, newchild`prev, if tail == null then {} else {tail}
    ensures newHead == if head == null then newchild else head
    ensures Copying(mem, t, c, base, newHead, newchild, ts + [k])
  {
    hide Readable, Reach, Shape, Separate, Separates, Foot, Foots, Inner, Forward, Backlinks, Shapes, LeadsTo, Fields;
    NewcomerApart(mem, t, c, base, head, tail, ts, k, live);
    newHead := LinkKid(mem, copy, newchild, t, c, head, tail, ts, k);
    Grown(mem, base + Foot(c), ts, k);
    Snoc(ts, k);
  }

  method LinkKid(ghost mem: Memory, copy: Node, newchild: Node, ghost t: Tree, ghost c: Tree,
                 head: Node?, tail: Node?, ghost ts: seq<Tree>, ghost k: Tree)
    returns (newHead: Node)
    requires Readable(t) && Fields(c) && Shape(k) && Forward(ts) && Backlinks(ts) && Shapes(ts) && Separates(ts)
    requires copy == c.node && newchild == k.node && newchild.next == null
    requires head == Head(ts) && tail == (if ts == [] then null else Last(ts).node)
    requires newchild !in Foots(ts) && newchild !in Reach(t) && newchild !in Foot(c) && newchild !in Inner(k)
    requires copy !in Block(c.text) + Block(c.name)
    requires copy in Foot(c) && copy !in Reach(t) && copy !in Foots(ts) && copy !in Foot(k)
    requires tail != null ==> tail !in Reach(t) && tail !in Foot(c) && tail !in Foot(k)
    requires Inner(k) <= Foot(k) && Block(c.text) + Block(c.name) <= Foot(c)
    requires Reach(t) + Foot(c) + Foots(ts) + Foot(k) <= mem.live
    modifies copy`child, newchild`prev, if tail == null then {} else {tail}
    ensures newHead == (if head == null then newchild else head) && copy.child == (if head == null then newHead else old(copy.child))
    ensures copy.next == old(copy.next) && copy.prev == old(copy.prev)
    ensures Readable(t) && Fields(c) && Shape(k) && Shapes(ts) && LeadsTo(ts, newchild)
  {
    hide *;
    if head == null {
      copy.child := newchild;
      newHead := newchild;
      NoneLeadsTo(ts, newchild);
    } else {
      HeadOrNone(ts);
      Attach(tail, newchild, ts);
      newHead := head;
    }
  }

  lemma {:induction false} NoneLeadsTo(ts: seq<Tree>, node: Node)
    requires Head(ts) == null && node.next == null
    ensures LeadsTo(ts, node)
  {}

  lemma {:induction false} HeadOrNone(ts: seq<Tree>)
    ensures Head(ts) == null <==> ts == []
  {}

  /** None of the nodes that get new links lies inside what has to stay. */
  lemma {:induction false} NewcomerApart(mem: Memory, t: Tree, c: Tree, base: set<object>, head: Node?, tail: Node?, ts: seq<Tree>, k: Tree, live: set<object>)
    requires Standing(t, c, head, tail, ts) && Beside(t, c, base, ts, live)
    requires Fresh(mem, live, k)
    ensures k.node !in Foots(ts) && k.node !in Reach(t) && k.node !in Foot(c) && k.node !in Inner(k)
    ensures c.node in Foot(c) && c.node !in Reach(t) && c.node !in Foots(ts) && c.node !in Foot(k)
    ensures tail != null ==> tail !in Reach(t) && tail !in Foot(c) && tail !in Foot(k)
    ensures Inner(c) <= Foot(c) && Inner(k) <= Foot(k)
    ensures Block(c.text) + Block(c.name) <= Foot(c) && c.node !in Block(c.text) + Block(c.name)
    ensures Reach(t) + Foot(c) + Foots(ts) + Foot(k) <= mem.live
  {
    hide Readable, Reach, Shape, Separates, Foots;
    TopsOwned(ts);
    NodeApart(k);
    FootOwned(c);
  }
}
