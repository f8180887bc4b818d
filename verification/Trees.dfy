/**
 Trees of heap nodes: which blocks they own, when the heap has their shape, the
 item each one denotes, and `cJSON_Delete`.
 */
module Trees {
  import opened Bytes
  import opened Items
  import opened Heap

  /** A string that a node owns, the block and what it holds, or a constant one. */
  datatype Str = NoStr | Str(block: array<byte>, chars: CChars) | Const(chars: CChars)

  /** What is meant to be in the heap at a node and below; `shared` if the node borrows that and owns but itself and its key. */
  datatype Tree = Tree(node: Node, kind: Kind, num: real, text: Str, name: Str, kids: seq<Tree>, shared: bool := false)

  ghost function Pointer(s: Str): array?<byte> {
    if s.Str? then s.block else null
  }

  ghost function Block(s: Str): set<object> {
    if s.Str? then {s.block} else {}
  }

  ghost function CharsOf(s: Str): CString {
    if s.NoStr? then NoString else Chars(s.chars)
  }

  /** The key that the node is flagged for as constant. */
  ghost function ConstOf(s: Str): CString {
    if s.Const? then Chars(s.chars) else NoString
  }

  function Init<T>(s: seq<T>): seq<T>
    requires s != []
  {
    s[..|s| - 1]
  }

  function Last<T>(s: seq<T>): T
    requires s != []
  {
    s[|s| - 1]
  }

  // ---- what a tree owns

  /** What in the set is neither a node nor a block of bytes. */
  ghost function Foreign(s: set<object>): set<object> {
    set o | o in s && !(o is Node) && !(o is array<byte>)
  }

  ghost function Foots(ts: seq<Tree>): (r: set<object>)
    ensures forall i :: 0 <= i < |ts| ==> Foot(ts[i]) <= r
    ensures Foreign(r) == {}
    decreases ts, 0
  {
    if ts == [] then {} else Foots(Init(ts)) + Foot(Last(ts))
  }

  ghost function Foot(t: Tree): (r: set<object>)
    ensures r == {t.node} + Inner(t)
    ensures Foreign(r) == {}
    decreases t, 1
  {
    {t.node} + Inner(t)
  }

  /** All of it but the node. */
  ghost function Inner(t: Tree): (r: set<object>)
    ensures Foreign(r) == {}
    decreases t, 0
  {
    Block(t.name) + if t.shared then {} else Block(t.text) + Foots(t.kids)
  }

  /** What belongs to the value: all but the node and its key. */
  ghost function Owned(t: Tree): (r: set<object>)
    ensures Foreign(r) == {}
  {
    if t.shared then {} else Block(t.text) + Foots(t.kids)
  }

  /** Nothing is owned twice. */
  ghost predicate Separates(ts: seq<Tree>)
    decreases ts, 0
  {
    ts == [] || (Separates(Init(ts)) && Separate(Last(ts)) && Foot(Last(ts)) !! Foots(Init(ts)))
  }

  ghost predicate Separate(t: Tree)
    decreases t, 0
  {
    !t.shared ==>
      && Separates(t.kids)
      && t.node !in Foots(t.kids)
      && Block(t.text) !! Foots(t.kids)
      && Block(t.name) !! Block(t.text) + Foots(t.kids)
  }

  // ---- the heap has the shape

  ghost predicate Written(s: Str)
    reads Block(s)
  {
    s.Str? ==> |s.chars| < s.block.Length && s.block[..|s.chars|] == s.chars && s.block[|s.chars|] == NUL
  }

  ghost function Head(ts: seq<Tree>): Node? {
    if ts == [] then null else ts[0].node
  }

  ghost function Tops(ts: seq<Tree>): set<Node> {
    set i | 0 <= i < |ts| :: ts[i].node
  }

  /** Each `next` leads to the next sibling, the last to none. */
  ghost predicate Forward(ts: seq<Tree>)
    reads Tops(ts)`next
  {
    Onward(ts, null)
  }

  ghost predicate Onward(ts: seq<Tree>, end: Node?)
    reads Tops(ts)`next
  {
    && (forall i :: 0 <= i < |ts| - 1 ==> ts[i].node.next == ts[i + 1].node)
    && (ts != [] ==> Last(ts).node.next == end)
  }

  /** Each `prev` leads back, the first one to the tail. */
  ghost predicate Backward(ts: seq<Tree>)
    reads Tops(ts)`prev
  {
    Backlinks(ts) && (ts != [] ==> ts[0].node.prev == Last(ts).node)
  }

  ghost predicate Backlinks(ts: seq<Tree>)
    reads Tops(ts)`prev
  {
    forall i :: 0 < i < |ts| ==> ts[i].node.prev == ts[i - 1].node
  }

  /** What the node holds of its own. */
  ghost predicate Header(t: Tree)
    reads t.node`kind, t.node`num, t.node`name, t.node`constKey, t.node`reference, Block(t.name)
  {
    && t.node.kind == t.kind && t.node.num == t.num && t.node.reference == t.shared
    && t.node.name == Pointer(t.name) && Written(t.name) && t.node.constKey == ConstOf(t.name)
  }

  /** What the node holds, with the string value. */
  ghost predicate Fields(t: Tree)
    reads t.node`kind, t.node`num, t.node`text, t.node`name, t.node`constKey, t.node`reference, Block(t.text), Block(t.name)
  {
    Header(t) && t.node.text == Pointer(t.text) && Written(t.text) && !t.text.Const?
  }

  /**
   All that `cJSON_Delete` relies on: the head of the children need not lead to
   their tail yet, and what a reference borrows may be gone.
   */
  ghost predicate Loose(t: Tree)
    reads t.node`kind, t.node`num, t.node`text, t.node`name, t.node`constKey, t.node`reference, t.node`child, Inner(t)
    decreases t, 0
  {
    && Header(t)
    && (!t.shared ==>
          && Fields(t)
          && t.node.child == Head(t.kids) && Forward(t.kids)
          && forall i :: 0 <= i < |t.kids| ==> Shape(t.kids[i]))
  }

  ghost predicate Shape(t: Tree)
    reads t.node`kind, t.node`num, t.node`text, t.node`name, t.node`constKey, t.node`reference, t.node`child, Inner(t)
    decreases t, 1
  {
    Loose(t) && (t.shared || Backward(t.kids))
  }

  ghost predicate Looses(ts: seq<Tree>)
    reads Foots(ts)
  {
    forall i :: 0 <= i < |ts| ==> Loose(ts[i])
  }

  ghost predicate Shapes(ts: seq<Tree>)
    reads Foots(ts)
  {
    forall i :: 0 <= i < |ts| ==> Shape(ts[i])
  }

  // ---- what a tree denotes

  ghost function ItemOf(t: Tree): Item
    decreases t, 0
  {
    Item(t.kind, t.num, CharsOf(t.text), CharsOf(t.name), ItemsOf(t.kids))
  }

  ghost function ItemsOf(ts: seq<Tree>): (r: seq<Item>)
    ensures |r| == |ts|
    decreases ts, 0
  {
    if ts == [] then [] else ItemsOf(Init(ts)) + [ItemOf(Last(ts))]
  }

  lemma {:induction false} ItemsAt(ts: seq<Tree>, i: nat)
    requires i < |ts|
    ensures ItemsOf(ts)[i] == ItemOf(ts[i])
    decreases |ts|
  {
    hide ItemOf;
    if i < |ts| - 1 {
      ItemsAt(Init(ts), i);
    }
  }

  /** One step along a list. */
  lemma {:induction false} Steps(ts: seq<Tree>, i: nat)
    requires Forward(ts) && i < |ts|
    ensures ts[i].node.next == if i + 1 < |ts| then ts[i + 1].node else null
  {}

  // ---- strings in the heap

  /** `strlen`. */
  method StringLength(s: array<byte>, ghost chars: CChars) returns (length: nat)
    requires Written(Str(s, chars))
    ensures length == |chars|
  {
    length := 0;
    while s[length] != NUL
      invariant length <= |chars| < s.Length && s[|chars|] == NUL && s[..|chars|] == chars
      decreases |chars| - length
    {
      length := length + 1;
    }
  }

  /** The C string behind a pointer. */
  method LoadString(block: array?<byte>, ghost s: Str) returns (x: CString)
    requires block == Pointer(s) && Written(s) && !s.Const?
    ensures x == CharsOf(s)
  {
    if block == null {
      return NoString;
    }
    var length := StringLength(block, s.chars);
    x := Chars(block[..length]);
  }

  /** The node's key, be it constant or not. */
  method LoadKey(node: Node, ghost s: Str) returns (x: CString)
    requires node.name == Pointer(s) && node.constKey == ConstOf(s) && Written(s)
    ensures x == CharsOf(s)
  {
    x := node.constKey;
    if x == NoString {
      x := LoadString(node.name, s);
    }
  }

  /** `cJSON_strdup` of a string that is there. */
  method CopyString(mem: Memory, s: array<byte>, ghost chars: CChars) returns (p: array?<byte>, ghost copy: Str)
    requires Written(Str(s, chars))
    modifies mem
    ensures mem.refusals == old(mem.refusals) + (if p == null then 1 else 0)
    ensures p == null ==> mem.live == old(mem.live) && copy == NoStr
    ensures p != null ==> fresh(p) && p !in old(mem.live) && mem.live == old(mem.live) + {p}
    ensures p != null ==> copy == Str(p, chars) && Written(copy)
  {
    copy := NoStr;
    var length := StringLength(s, chars);
    p := mem.NewBytes(length + 1);
    if p != null {
      forall i | 0 <= i <= length {
        p[i] := s[i];
      }
      copy := Str(p, chars);
      assert p[..length] == s[..length];
    }
  }

  // ---- appending a tree to a list

  lemma {:induction false} Snoc(ts: seq<Tree>, t: Tree)
    ensures Foots(ts + [t]) == Foots(ts) + Foot(t)
    ensures ItemsOf(ts + [t]) == ItemsOf(ts) + [ItemOf(t)]
    ensures Separates(ts + [t]) == (Separates(ts) && Separate(t) && Foot(t) !! Foots(ts))
  {
    hide Foot, Separate, ItemOf;
    assert Init(ts + [t]) == ts;
  }

  // ---- prefixes

  lemma {:induction false} Prefix(ts: seq<Tree>, i: nat)
    requires i < |ts|
    ensures Foots(ts[..i + 1]) == Foots(ts[..i]) + Foot(ts[i])
    ensures Foots(ts[..i + 1]) <= Foots(ts)
    ensures Separates(ts) ==> Separate(ts[i]) && Foot(ts[i]) !! Foots(ts[..i])
    decreases |ts| - i
  {
    hide Foot, Separate;
    assert Init(ts[..i + 1]) == ts[..i];
    SeparatesPrefix(ts, i + 1);
  }

  lemma {:induction false} SeparatesPrefix(ts: seq<Tree>, i: nat)
    requires i <= |ts|
    ensures Foots(ts[..i]) <= Foots(ts)
    ensures Separates(ts) ==> Separates(ts[..i])
    decreases |ts|
  {
    hide Foot, Separate;
    if i < |ts| {
      SeparatesPrefix(Init(ts), i);
      assert Init(ts)[..i] == ts[..i];
    } else {
      assert ts[..i] == ts;
    }
  }

  // ---- cJSON_Delete

  lemma {:induction false} ShapeIsLoose(t: Tree)
    requires Shape(t)
    ensures Loose(t)
  {}

  lemma {:induction false} ShapesAreLoose(ts: seq<Tree>)
    requires Shapes(ts)
    ensures Looses(ts)
  {
    hide Loose;
  }

  /**
   `cJSON_Delete` of a list: every node, string and key below it is freed, each
   once, since only what is live can be. Only `next` and `child` are followed,
   so the list may be one whose head does not lead to its tail yet.
   */
  method Delete(mem: Memory, first: Node?, ghost ts: seq<Tree>)
    requires first == Head(ts) && Forward(ts) && Looses(ts) && Separates(ts)
    requires Foots(ts) <= mem.live
    modifies mem`live
    ensures mem.live == old(mem.live) - Foots(ts)
    decreases ts
  {
    hide Loose, Separates, Foots, Foot;
    var item := first;
    ghost var i := 0;
    NoFoots();
    while item != null
      invariant i <= |ts| && item == (if i < |ts| then ts[i].node else null)
      invariant mem.live == old(mem.live) - Foots(ts[..i])
      invariant Looses(ts)
      decreases |ts| - i
    {
      var next := item.next;
      Prefix(ts, i);
      DeleteOne(mem, item, ts[i]);
      assert i + 1 < |ts| ==> next == ts[i + 1].node;
      item := next;
      i := i + 1;
    }
    assert ts[..i] == ts;
  }

  /** One turn of the loop. */
  method DeleteOne(mem: Memory, item: Node, ghost t: Tree)
    requires item == t.node && Loose(t) && Separate(t)
    requires Foot(t) <= mem.live
    modifies mem`live
    ensures mem.live == old(mem.live) - Foot(t)
    decreases t
  {
    hide Separates, Foots;
    if !item.reference && item.child != null {
      ShapesAreLoose(t.kids);
      Delete(mem, item.child, t.kids);
    } else {
      NoFoots();
    }
    if !item.reference && item.text != null {
      mem.Free(item.text);
    }
    if item.constKey == NoString && item.name != null {
      mem.Free(item.name);
    }
    mem.Free(item);
  }

  lemma NoFoots()
    ensures Foots([]) == {}
  {}

  // ---- a list under construction

  /** The head does not lead to the tail yet. */
  ghost predicate Growing(head: Node?, tail: Node?, ts: seq<Tree>)
    reads Foots(ts)
  {
    && head == Head(ts) && tail == (if ts == [] then null else Last(ts).node)
    && Forward(ts) && Backlinks(ts) && Shapes(ts) && Separates(ts) && Plains(ts)
  }

  /** No reference in the tree. */
  ghost predicate Plain(t: Tree)
    decreases t, 0
  {
    !t.shared && Plains(t.kids)
  }

  ghost predicate Plains(ts: seq<Tree>)
    decreases ts, 0
  {
    forall i :: 0 <= i < |ts| ==> Plain(ts[i])
  }

  /** `ts` with a link on to `node`. */
  ghost predicate LeadsTo(ts: seq<Tree>, node: Node)
    reads Tops(ts)`next, Tops(ts)`prev, node`next, node`prev
  {
    && Onward(ts, node) && Backlinks(ts) && node.next == null
    && (ts != [] ==> node.prev == Last(ts).node)
  }

  lemma {:induction false} Apart(ts: seq<Tree>, i: nat, j: nat)
    requires Separates(ts) && i < |ts| && j < |ts|
    ensures ts[i].node !in Inner(ts[j])
    ensures i != j ==> ts[i].node != ts[j].node
    decreases |ts|
  {
    var n := |ts| - 1;
    if i < n && j < n {
      Apart(Init(ts), i, j);
    } else if i == n && j < n {
      assert Init(ts)[j] == ts[j];
    } else if i < n {
      assert Init(ts)[i] == ts[i];
    }
  }

  /** The links that make `node` the tail. */
  method Attach(tail: Node, node: Node, ghost ts: seq<Tree>)
    requires ts != [] && tail == Last(ts).node
    requires Forward(ts) && Backlinks(ts) && Shapes(ts) && Separates(ts)
    requires node !in Foots(ts) && node.next == null
    modifies tail`next, node`prev
    ensures Shapes(ts) && LeadsTo(ts, node)
  {
    hide Separates, Foots, Shape, Foot, Inner;
    forall i | 0 <= i < |ts|
      ensures tail !in Inner(ts[i]) && node !in Inner(ts[i]) && node != ts[i].node
      ensures i < |ts| - 1 ==> ts[i].node != tail
    {
      Apart(ts, |ts| - 1, i);
      assert ts[i].node in Foot(ts[i]) && Foot(ts[i]) <= Foots(ts);
    }
    tail.next := node;
    node.prev := tail;
  }

  /** `cJSON_New_Item`, attached at the end of the list. */
  method NewTail(mem: Memory, head: Node?, tail: Node?, ghost ts: seq<Tree>, ghost base: set<object>)
    returns (newHead: Node?, node: Node?)
    requires Growing(head, tail, ts) && Owns(mem, base, ts)
    modifies mem, if tail == null then {} else {tail}
    ensures mem.refusals == old(mem.refusals) + (if node == null then 1 else 0)
    ensures node == null ==> newHead == head && Growing(head, tail, ts) && Owns(mem, base, ts)
    ensures node != null ==>
              && fresh(node) && newHead == (if head == null then node else head)
              && Shapes(ts) && LeadsTo(ts, node) && node !in Foots(ts)
              && mem.live == base + Foots(ts) + {node} && node !in base
              && node.kind == Invalid && node.num == 0.0 && node.text == node.name == null && node.child == null
              && node.constKey == NoString && !node.reference
  {
    hide Separates, Foots, Shape;
    newHead := head;
    Aside(mem, ts);
    node := mem.NewNode();
    if node != null {
      if head == null {
        newHead := node;
      } else {
        Attach(tail, node, ts);
      }
    }
  }

  /** The list's blocks are live, and apart from what was live before it. */
  ghost predicate Owns(mem: Memory, base: set<object>, ts: seq<Tree>)
    reads mem
  {
    mem.live == base + Foots(ts) && base !! Foots(ts)
  }

  lemma {:induction false} LinksGrow(ts: seq<Tree>, t: Tree)
    requires LeadsTo(ts, t.node)
    ensures Forward(ts + [t]) && Backlinks(ts + [t])
  {
    var all := ts + [t];
    forall i | 0 <= i < |ts|
      ensures all[i].node.next == all[i + 1].node && all[i + 1].node.prev == all[i].node
    {
      assert all[i] == ts[i];
      assert i + 1 < |ts| ==> all[i + 1] == ts[i + 1];
    }
  }

  lemma {:induction false} ShapesGrow(ts: seq<Tree>, t: Tree)
    requires Shapes(ts) && Shape(t)
    ensures Shapes(ts + [t])
  {
    hide Shape, Foots;
  }

  lemma {:induction false} Grown(mem: Memory, base: set<object>, ts: seq<Tree>, t: Tree)
    requires LeadsTo(ts, t.node) && Shapes(ts) && Shape(t) && Separates(ts) && Separate(t) && Plains(ts) && Plain(t)
    requires base !! Foots(ts) && Foot(t) !! base + Foots(ts)
    requires mem.live == base + Foots(ts) + Foot(t)
    ensures Growing(Head(ts + [t]), t.node, ts + [t]) && Owns(mem, base, ts + [t])
  {
    hide Foot, Foots, Shape, Shapes, Separate, Separates, LeadsTo, Forward, Backlinks;
    Snoc(ts, t);
    LinksGrow(ts, t);
    ShapesGrow(ts, t);
  }

  /** A node without a value. */
  ghost predicate Vacant(node: Node, name: Str)
    reads node`num, node`text, node`name, node`constKey, node`reference, node`child, Block(name)
  {
    && node.num == 0.0 && node.text == null && node.child == null && !node.reference
    && node.name == Pointer(name) && Written(name) && node.constKey == ConstOf(name)
  }

  /** A node with a value that holds no other blocks. */
  lemma {:induction false} LeafShape(t: Tree)
    requires t.kids == [] && !t.shared && Fields(t) && t.node.child == null
    requires Block(t.name) !! Block(t.text)
    ensures Shape(t) && Separate(t) && Plain(t) && Owned(t) == Block(t.text)
    ensures ItemOf(t) == BLANK.(kind := t.kind, num := t.num, text := CharsOf(t.text), name := CharsOf(t.name))
  {}

  lemma {:induction false} FootOwned(t: Tree)
    ensures Foot(t) == {t.node} + Block(t.name) + Owned(t)
  {}

  lemma {:induction false} TopsOwned(ts: seq<Tree>)
    ensures Tops(ts) <= Foots(ts)
  {
    hide Foots;
    forall i | 0 <= i < |ts| ensures ts[i].node in Foots(ts) {
      assert ts[i].node in Foot(ts[i]) && Foot(ts[i]) <= Foots(ts);
    }
  }

  lemma {:induction false} Aside(o: object, ts: seq<Tree>)
    requires !(o is Node) && !(o is array<byte>)
    ensures o !in Foots(ts)
  {
    hide Foots;
    assert o in Foots(ts) ==> o in Foreign(Foots(ts));
  }

  /** The head is led to the tail. */
  method CloseList(head: Node, tail: Node?, ghost ts: seq<Tree>)
    requires Growing(head, tail, ts)
    modifies head`prev
    ensures head == Head(ts) && Forward(ts) && Backward(ts) && Shapes(ts) && Separates(ts)
  {
    hide Separates, Foots, Shape, Foot, Inner;
    forall i | 0 <= i < |ts|
      ensures head !in Inner(ts[i]) && (i > 0 ==> ts[i].node != head)
    {
      Apart(ts, 0, i);
    }
    head.prev := tail;
  }

  method FinishList(head: Node?, tail: Node?, ghost ts: seq<Tree>)
    requires Growing(head, tail, ts)
    modifies if head == null then {} else {head}
    ensures head == Head(ts) && Forward(ts) && Backward(ts) && Shapes(ts) && Separates(ts) && Plains(ts)
  {
    hide Separates, Shapes, Foots;
    if head != null {
      CloseList(head, tail, ts);
    }
  }

  /** A finished list becomes the children of a node. */
  method Adopt(item: Node, kind: Kind, head: Node?, ghost name: Str, ghost ts: seq<Tree>) returns (ghost t: Tree)
    requires Vacant(item, name)
    requires head == Head(ts) && Forward(ts) && Backward(ts) && Shapes(ts) && Separates(ts) && Plains(ts)
    requires {item} + Block(name) !! Foots(ts)
    modifies item`kind, item`child
    ensures t == Tree(item, kind, 0.0, NoStr, name, ts)
    ensures Shape(t) && Separate(t) && Plain(t) && Owned(t) == Foots(ts)
  {
    hide Separates, Foots, Shapes, Forward, Backward;
    TopsOwned(ts);
    item.kind := kind;
    item.child := head;
    t := Tree(item, kind, 0.0, NoStr, name, ts);
    ParentShape(t);
  }

  lemma {:induction false} ParentShape(t: Tree)
    requires !t.shared && Fields(t)
    requires t.node.child == Head(t.kids) && Forward(t.kids) && Backward(t.kids)
    requires Shapes(t.kids) && Separates(t.kids)
    requires Block(t.name) !! Block(t.text) && {t.node} + Block(t.name) + Block(t.text) !! Foots(t.kids)
    ensures Shape(t) && Separate(t) && Owned(t) == Block(t.text) + Foots(t.kids)
  {
    hide Separates, Foots, Forward, Backward, Foot;
  }

  lemma NoList(mem: Memory)
    ensures Growing(null, null, []) && Owns(mem, mem.live, []) && ItemsOf([]) == []
  {}

  /** A node without a value ends the list as well as any other. */
  lemma {:induction false} LeafGrown(mem: Memory, base: set<object>, ts: seq<Tree>, node: Node, name: Str) returns (t: Tree)
    requires LeadsTo(ts, node) && Shapes(ts) && Separates(ts) && Plains(ts) && Vacant(node, name)
    requires base !! Foots(ts) && {node} + Block(name) !! base + Foots(ts)
    requires mem.live == base + Foots(ts) + {node} + Block(name)
    ensures t.node == node && Growing(Head(ts + [t]), node, ts + [t]) && Owns(mem, base, ts + [t])
  {
    hide Foots, Shape, Shapes, Separate, Separates, LeadsTo, Forward, Backlinks, Growing;
    t := Tree(node, node.kind, 0.0, NoStr, name, []);
    LeafShape(t);
    FootOwned(t);
    assert Foot(t) == {node} + Block(name);
    Grown(mem, base, ts, t);
  }

  lemma {:induction false} AsideTree(o: object, t: Tree)
    requires !(o is Node) && !(o is array<byte>)
    ensures o !in Foot(t) && o !in Inner(t) && t.node in Foot(t) && Inner(t) <= Foot(t)
  {
    assert o in Foot(t) ==> o in Foreign(Foot(t));
    assert o in Inner(t) ==> o in Foreign(Inner(t));
  }

  /** `cJSON_Delete` of a tree by itself. */
  method DeleteRoot(mem: Memory, item: Node, ghost t: Tree)
    requires item == t.node && item.next == null && Loose(t) && Separate(t)
    requires Foot(t) <= mem.live
    modifies mem`live
    ensures mem.live == old(mem.live) - Foot(t)
  {
    hide Loose, Separate, Foot;
    assert [t][..0] == [] && Init([t]) == [] && Last([t]) == t;
    Alone(t);
    Delete(mem, item, [t]);
  }

  lemma {:induction false} Alone(t: Tree)
    ensures Foots([t]) == Foot(t) == {t.node} + Block(t.name) + Owned(t)
    ensures Separate(t) ==> Separates([t])
    ensures Shape(t) ==> Shapes([t])
    ensures ItemsOf([t]) == [ItemOf(t)]
  {
    hide Separate, Shape, ItemOf;
    Snoc([], t);
    assert [] + [t] == [t];
  }

  lemma {:induction false} RootFields(t: Tree)
    requires Shape(t) && !t.shared
    ensures Fields(t)
  {}

  lemma {:induction false} NodeApart(t: Tree)
    requires Separate(t)
    ensures t.node !in Inner(t) && t.node in Foot(t) && Inner(t) <= Foot(t)
  {}
}
