/** `cJSON_CreateIntArray`: the list it builds, link by link. */
module CreateArray {
  import opened Bytes
  import opened Items
  import opened Heap
  import opened Trees
  import opened Duplication

  function NumberItem(n: int): Item {
    BLANK.(kind := Number, num := n as real)
  }

  function NumberItems(ns: seq<int>): (r: seq<Item>)
    ensures |r| == |ns|
  {
    if ns == [] then [] else NumberItems(Init(ns)) + [NumberItem(Last(ns))]
  }

  /** The array node while its list grows, */
  ghost predicate Growable(a: Node, head: Node?, tail: Node?, ts: seq<Tree>)
    reads a, Foots(ts)
  {
    && a.kind == Array && a.num == 0.0 && a.text == null && a.name == null && a.constKey == NoString && !a.reference
    && a.child == head
    && a.next == null && a.prev == null && Growing(head, tail, ts)
  }

  /** with nothing else allocated since `base`. */
  ghost predicate Laid(a: Node, base: set<object>, ts: seq<Tree>, live: set<object>) {
    a !in base && base + {a} !! Foots(ts) && live == base + {a} + Foots(ts)
  }

  ghost predicate Building(mem: Memory, a: Node, base: set<object>, head: Node?, tail: Node?, ts: seq<Tree>)
    reads mem, a, Foots(ts)
  {
    Growable(a, head, tail, ts) && Laid(a, base, ts, mem.live)
  }

  ghost function ArrayTree(a: Node, ts: seq<Tree>): Tree {
    Tree(a, Array, 0.0, NoStr, NoStr, ts)
  }

  lemma {:induction false} BuiltSoFar(mem: Memory, a: Node, base: set<object>, head: Node?, tail: Node?, ts: seq<Tree>)
    requires Building(mem, a, base, head, tail, ts)
    ensures var d := ArrayTree(a, ts);
            && Loose(d) && (Backward(ts) ==> Shape(d)) && Separate(d) && Plain(d)
            && Foot(d) == {a} + Foots(ts) && Foot(d) !! base && mem.live == base + Foot(d)
            && ItemOf(d) == BLANK.(kind := Array, kids := ItemsOf(ts))
  {
    hide Separates, Foots, Forward, Backward, Backlinks, ItemsOf;
    var c := ArrayTree(a, []);
    NoFoots();
    FootOwned(c);
    LeafParts(a);
    EmptyArray(a);
    SoFar(c, ts);
  }

  /** The numbers `numbers[..count]`; a NULL array or negative count gives none. */
  method CreateIntArray(mem: Memory, numbers: array?<int>, count: int) returns (a: Node?, ghost made: seq<Tree>)
    requires numbers != null ==> count <= numbers.Length
    modifies mem
    ensures a == null ==>
              && mem.live == old(mem.live)
              && (numbers == null || count < 0 || mem.refusals > old(mem.refusals))
    ensures a != null ==>
              && numbers != null && 0 <= count
              && |made| == 1 && made[0].node == a && Fresh(mem, old(mem.live), made[0])
              && var kids := ItemOf(made[0]).kids;
                 && ItemOf(made[0]) == Item(Array, 0.0, NoString, NoString, kids) && |kids| == count
                 && forall i :: 0 <= i < count ==> kids[i] == Item(Number, numbers[i] as real, NoString, NoString, [])
  {
    hide Building, Shape, Loose, Separate, Foot, ItemOf, ItemsOf, NumberItems;
    made := [];
    if count < 0 || numbers == null {
      return null, made;
    }
    ghost var base := mem.live;
    a := mem.NewNode();
    if a == null {
      return;
    }
    a.kind := Array;
    var head, tail: Node? := null, null;
    ghost var ts := [];
    StartBuilding(mem, a, base);
    NoNumbers(numbers[..0]);
    var i := 0;
    while i < count
      invariant 0 <= i <= count
      invariant Building(mem, a, base, head, tail, ts)
      invariant fresh(a) && (head != null ==> fresh(head)) && (tail != null ==> fresh(tail))
      invariant (head == null <==> tail == null) && mem.refusals >= old(mem.refusals)
      invariant ItemsOf(ts) == NumberItems(numbers[..i])
    {
      var ok;
      ghost var more;
      ok, head, tail, more := AddNumber(mem, a, numbers[i], base, head, tail, ts);
      ts := more;
      if !ok {
        BuiltSoFar(mem, a, base, head, tail, ts);
        Siblingless(mem, a, base, head, tail, ts);
        DeleteRoot(mem, a, ArrayTree(a, ts));
        return null, made;
      }
      MoreNumbers(numbers[..i], numbers[i]);
      assert numbers[..i] + [numbers[i]] == numbers[..i + 1];
      i := i + 1;
    }
    made := [ArrayTree(a, ts)];
    CloseArray(mem, a, base, head, tail, ts);
    NumbersAt(numbers[..i]);
  }

  lemma {:induction false} NumbersAt(ns: seq<int>)
    ensures forall i :: 0 <= i < |ns| ==> NumberItems(ns)[i] == Item(Number, ns[i] as real, NoString, NoString, [])
  {
    if ns != [] {
      NumbersAt(Init(ns));
    }
  }

  lemma NoNumbers(ns: seq<int>)
    ensures ns == [] ==> NumberItems(ns) == [] == ItemsOf([])
  {}

  lemma MoreNumbers(ns: seq<int>, n: int)
    ensures NumberItems(ns + [n]) == NumberItems(ns) + [NumberItem(n)]
  {
    assert Init(ns + [n]) == ns && Last(ns + [n]) == n;
  }

  lemma StartBuilding(mem: Memory, a: Node, base: set<object>)
    requires a.kind == Array && a.num == 0.0 && a.text == null && a.name == null && a.constKey == NoString && !a.reference
    requires a.child == null && a.next == null && a.prev == null
    requires a !in base && mem.live == base + {a}
    ensures Building(mem, a, base, null, null, [])
  {}

  lemma {:induction false} Siblingless(mem: Memory, a: Node, base: set<object>, head: Node?, tail: Node?, ts: seq<Tree>)
    requires Building(mem, a, base, head, tail, ts)
    ensures a.next == null && a.prev == null
  {}

  method CloseArray(ghost mem: Memory, a: Node, ghost base: set<object>, head: Node?, tail: Node?, ghost ts: seq<Tree>)
    requires Building(mem, a, base, head, tail, ts)
    modifies if head == null then {} else {head}
    ensures Fresh(mem, base, ArrayTree(a, ts))
    ensures ItemOf(ArrayTree(a, ts)) == BLANK.(kind := Array, kids := ItemsOf(ts))
  {
    hide Separates, Foots, Shape, Shapes, Separate, Forward, Backward, Backlinks, ItemsOf, ItemOf, Foot;
    TopsOwned(ts);
    NoFoots();
    FootOwned(ArrayTree(a, []));
    FinishList(head, tail, ts);
    LeafParts(a);
    SoFar(ArrayTree(a, []), ts);
    EmptyArray(a);
  }

  /** `cJSON_CreateNumber`, at the end of the list. */
  method AddNumber(mem: Memory, a: Node, n: int, ghost base: set<object>, head: Node?, tail: Node?, ghost ts: seq<Tree>)
    returns (ok: bool, newHead: Node?, newTail: Node?, ghost more: seq<Tree>)
    requires Building(mem, a, base, head, tail, ts)
    modifies mem, a`child, if tail == null then {} else {tail}
    ensures mem.refusals >= old(mem.refusals)
    ensures Building(mem, a, base, newHead, newTail, more)
    ensures !ok ==> mem.refusals > old(mem.refusals) && newHead == head && newTail == tail
    ensures ok ==>
              && newTail != null && fresh(newTail) && newHead == (if head == null then newTail else head)
              && ItemsOf(more) == ItemsOf(ts) + [NumberItem(n)]
  {
    hide Growable, Shape, Separate, Separates, Foots, Foot, ItemOf, ItemsOf;
    more := ts;
    ghost var live := mem.live;
    var node := NewNumberBeside(mem, n, a, head, tail, ts);
    if node == null {
      return false, head, tail, more;
    }
    ghost var k := Tree(node, Number, n as real, NoStr, NoStr, []);
    newHead := AttachNumber(mem, a, node, base, head, tail, ts, k);
    Snoc(ts, k);
    more := ts + [k];
    ok, newTail := true, node;
  }

  /** `cJSON_CreateNumber`. */
  method NewNumber(mem: Memory, n: int) returns (node: Node?)
    modifies mem
    ensures mem.refusals == old(mem.refusals) + (if node == null then 1 else 0)
    ensures node == null ==> mem.live == old(mem.live)
    ensures node != null ==>
              var k := Tree(node, Number, n as real, NoStr, NoStr, []);
              && fresh(node) && node !in old(mem.live) && mem.live == old(mem.live) + {node}
              && Shape(k) && Separate(k) && Foot(k) == {node} && node.next == null
              && ItemOf(k) == NumberItem(n)
  {
    hide Shape, Separate, Foot;
    node := mem.NewNode();
    if node != null {
      node.kind := Number;
      node.num := n as real;
      ghost var k := Tree(node, Number, n as real, NoStr, NoStr, []);
      LeafShape(k);
      FootOwned(k);
    }
  }

  method NewNumberBeside(mem: Memory, n: int, ghost a: Node, ghost head: Node?, ghost tail: Node?, ghost ts: seq<Tree>)
    returns (node: Node?)
    requires Growable(a, head, tail, ts) && Foots(ts) <= mem.live
    modifies mem
    ensures mem.refusals == old(mem.refusals) + (if node == null then 1 else 0)
    ensures node == null ==> mem.live == old(mem.live)
    ensures node != null ==>
              var k := Tree(node, Number, n as real, NoStr, NoStr, []);
              && fresh(node) && node !in old(mem.live) && mem.live == old(mem.live) + {node}
              && Shape(k) && Separate(k) && Foot(k) == {node} && node.next == null
              && ItemOf(k) == NumberItem(n)
    ensures Growable(a, head, tail, ts)
  {
    hide *;
    Aside(mem, ts);
    node := NewNumber(mem, n);
  }

  method AttachNumber(ghost mem: Memory, a: Node, node: Node, ghost base: set<object>,
                      head: Node?, tail: Node?, ghost ts: seq<Tree>, ghost k: Tree)
    returns (newHead: Node)
    requires Growable(a, head, tail, ts) && a !in base && base + {a} !! Foots(ts)
    requires k.node == node && Shape(k) && Separate(k) && Plain(k) && Foot(k) == {node} && node.next == null
    requires node !in base + {a} + Foots(ts) && mem.live == base + {a} + Foots(ts) + {node}
    modifies a`child, node`prev, if tail == null then {} else {tail}
    ensures newHead == if head == null then node else head
    ensures Building(mem, a, base, newHead, node, ts + [k])
  {
    hide Shape, Separate, Separates, Foot, Foots, Inner, Forward, Backlinks, Shapes, LeadsTo;
    TopsOwned(ts);
    NodeApart(k);
    if head == null {
      a.child := node;
      newHead := node;
      NoneLeadsTo(ts, node);
      HeadOrNone(ts);
    } else {
      HeadOrNone(ts);
      Attach(tail, node, ts);
      newHead := head;
    }
    Grown(mem, base + {a}, ts, k);
    Snoc(ts, k);
  }

  lemma LeafParts(a: Node)
    requires a.kind == Array && a.num == 0.0 && a.text == null && a.name == null && a.constKey == NoString && !a.reference
    ensures Fields(ArrayTree(a, [])) && Separate(ArrayTree(a, []))
  {}

  lemma EmptyArray(a: Node)
    ensures ItemOf(ArrayTree(a, [])) == BLANK.(kind := Array)
  {}
}
