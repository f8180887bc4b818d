/**
 Adding to arrays and objects what is shared: references to other items, and
 keys that are constant.
 */
module Additions {
  import opened Bytes
  import opened Heap
  import opened Trees
  import opened Reading
  import opened TreeEdits

  /**
   `cJSON_AddItemReferenceToArray`: one more element, which reads as the item
   does, and for which the array owns a node and no more.
   */
  method AddReference(mem: Memory, parent: Node, item: Node, ghost t: Tree, ghost it: Tree) returns (ok: bool, ghost r: Tree)
    requires parent == t.node && Shape(t) && Separate(t) && !t.shared && Foot(t) <= mem.live
    requires item == it.node && Readable(it) && Reach(it) <= mem.live
    modifies mem, parent`child, Tops(t.kids)`next, Tops(t.kids)`prev
    ensures mem.refusals == old(mem.refusals) + if ok then 0 else 1
    ensures !ok ==> mem.live == old(mem.live) && Shape(t)
    ensures ok ==>
              var u := WithKids(t, t.kids + [r]);
              && r == Borrowed(it, r.node) && fresh(r.node) && mem.live == old(mem.live) + {r.node}
              && Shape(u) && Separate(u) && Foot(u) == Foot(t) + {r.node}
              && ItemOf(u) == ItemOf(t).(kids := ItemOf(t).kids + [ItemOf(it).(name := NoString)])
  {
    hide Shape, Separate, Foot, Readable, Reach, ItemOf;
    r := t;
    var reference := ReferenceBeside(mem, item, t, it);
    ok := reference != null;
    if ok {
      r := Borrowed(it, reference);
      ok := Append(mem, parent, reference, t, r);
    }
  }

  /** The tree stays as it is. */
  method ReferenceBeside(mem: Memory, item: Node, ghost t: Tree, ghost it: Tree) returns (reference: Node?)
    requires Shape(t) && Foot(t) <= mem.live
    requires item == it.node && Readable(it) && Reach(it) <= mem.live
    modifies mem
    ensures mem.refusals == old(mem.refusals) + (if reference == null then 1 else 0)
    ensures Shape(t)
    ensures reference == null ==> mem.live == old(mem.live)
    ensures reference != null ==>
              var r := Borrowed(it, reference);
              && fresh(reference) && mem.live == old(mem.live) + {reference}
              && reference !in old(mem.live) && reference.next == reference.prev == null
              && Shape(r) && Separate(r) && Foot(r) == {reference}
              && ItemOf(r) == ItemOf(it).(name := NoString)
  {
    hide *;
    AsideTree(mem, t);
    reference := CreateReference(mem, item, it);
  }

  /**
   `add_item_to_object` of a tree by itself: it gets the key, a copy or a
   constant, its old key is freed, and it becomes the last member.
   */
  method AddToObject(mem: Memory, parent: Node, key: array<byte>, item: Node, constant: bool,
                     ghost chars: CChars, ghost t: Tree, ghost it: Tree)
    returns (ok: bool, ghost named: Tree)
    requires parent == t.node && Shape(t) && Separate(t) && !t.shared
    requires item == it.node && Shape(it) && Separate(it) && item.next == null
    requires Foot(t) !! Foot(it) && Foot(t) + Foot(it) <= mem.live && Written(Str(key, chars))
    modifies mem, parent`child, item`name, item`constKey, item`next, item`prev, Tops(t.kids)`next, Tops(t.kids)`prev
    ensures ok || (!constant && mem.refusals > old(mem.refusals))
    ensures !ok ==> mem.live == old(mem.live) && Shape(t) && Shape(it)
    ensures ok ==>
              var u := WithKids(t, t.kids + [named]);
              && named == it.(name := named.name) && CharsOf(named.name) == Chars(chars) && (constant ==> Block(named.name) == {})
              && Shape(u) && Separate(u) && Foot(u) == Foot(t) + Foot(named)
              && Foot(named) == Foot(it) - Block(it.name) + Block(named.name)
              && mem.live == old(mem.live) - Block(it.name) + Block(named.name)
              && ItemOf(u) == ItemOf(t).(kids := ItemOf(t).kids + [ItemOf(it).(name := Chars(chars))])
  {
    hide Shape, Separate, Foot, Inner, ItemOf, Owned;
    named := it;
    var newKey, newConst;
    ghost var name;
    newKey, newConst, name := NewKey(mem, key, constant, chars, t, it);
    if newKey == null && newConst == NoString {
      ok := false;
      return;
    }
    FootOwned(it);
    Rekey(mem, item, newKey, newConst, name, t, it);
    named := it.(name := name);
    ok := Append(mem, parent, item, t, named);
  }

  /** The key as `constant_key` has it. */
  method NewKey(mem: Memory, key: array<byte>, constant: bool, ghost chars: CChars, ghost t: Tree, ghost it: Tree)
    returns (newKey: array?<byte>, newConst: CString, ghost name: Str)
    requires Shape(t) && Shape(it) && Foot(t) + Foot(it) <= mem.live && Written(Str(key, chars))
    modifies mem
    ensures Shape(t) && Shape(it)
    ensures newKey == Pointer(name) && newConst == ConstOf(name) && Written(name)
    ensures mem.live == old(mem.live) + Block(name) && Block(name) !! old(mem.live)
    ensures name == NoStr ==> !constant && mem.refusals > old(mem.refusals)
    ensures name != NoStr ==> CharsOf(name) == Chars(chars) && (constant ==> name.Const?)
  {
    hide Shape, Foot, Inner;
    AsideTree(mem, t);
    AsideTree(mem, it);
    newKey, newConst := null, NoString;
    if constant {
      var length := StringLength(key, chars);
      newConst := Chars(key[..length]);
      name := Const(chars);
    } else {
      newKey, name := CopyString(mem, key, chars);
    }
  }

  /** The old key is freed, unless it is constant, and the new one takes its place. */
  method Rekey(mem: Memory, item: Node, newKey: array?<byte>, newConst: CString, ghost name: Str, ghost t: Tree, ghost it: Tree)
    requires Shape(t) && item == it.node && Shape(it) && Separate(it) && Foot(t) !! Foot(it)
    requires newKey == Pointer(name) && newConst == ConstOf(name) && Written(name)
    requires Foot(t) + Foot(it) <= mem.live && Block(name) !! Foot(t) + Foot(it)
    modifies mem`live, item`name, item`constKey
    ensures Shape(t)
    ensures var named := it.(name := name);
            && Shape(named) && Separate(named)
            && Foot(named) == Foot(it) - Block(it.name) + Block(name)
            && ItemOf(named) == ItemOf(it).(name := CharsOf(name))
    ensures mem.live == old(mem.live) - Block(it.name)
  {
    hide Foot, Inner, Owned, Foots, Shape, Separate, Separates, ItemOf;
    ghost var named := it.(name := name);
    RenamedParts(it, name);
    HeaderOf(it);
    FootOwned(it);
    if item.constKey == NoString && item.name != null {
      mem.Free(item.name);
    }
    SetKey(item, newKey, newConst, name, t, it);
  }

  method SetKey(item: Node, newKey: array?<byte>, newConst: CString, ghost name: Str, ghost t: Tree, ghost it: Tree)
    requires Shape(t) && item !in Foot(t) && item == it.node && Shape(it) && Separate(it)
    requires newKey == Pointer(name) && newConst == ConstOf(name) && Written(name)
    modifies item`name, item`constKey
    ensures Shape(t) && Shape(it.(name := name))
  {
    hide Foots, Separates, Forward, Backward, Foot, Inner;
    ghost var ts := OwnKids(it);
    SetFields(item, newKey, newConst, t, ts);
    assert Header(it.(name := name));
  }

  method SetFields(item: Node, newKey: array?<byte>, newConst: CString, ghost t: Tree, ghost ts: seq<Tree>)
    requires Shape(t) && item !in Foot(t)
    requires Shapes(ts) && item !in Foots(ts) && Forward(ts) && Backward(ts)
    modifies item`name, item`constKey
    ensures item.name == newKey && item.constKey == newConst
    ensures Shape(t) && Shapes(ts) && Forward(ts) && Backward(ts)
  {
    hide Shape, Shapes, Foots, Forward, Backward;
    item.name, item.constKey := newKey, newConst;
  }

  lemma {:induction false} HeaderOf(t: Tree)
    requires Shape(t)
    ensures Header(t)
  {}

  /** The children that the node owns. */
  lemma {:induction false} OwnKids(t: Tree) returns (ts: seq<Tree>)
    requires Shape(t) && Separate(t)
    ensures ts == if t.shared then [] else t.kids
    ensures Shapes(ts) && Forward(ts) && Backward(ts) && t.node !in Foots(ts)
  {
    ts := if t.shared then [] else t.kids;
  }

  lemma {:induction false} RenamedParts(t: Tree, name: Str)
    requires Separate(t) && Block(name) !! Foot(t)
    ensures var named := t.(name := name);
            && Separate(named) && Foot(named) == Foot(t) - Block(t.name) + Block(name)
            && ItemOf(named) == ItemOf(t).(name := CharsOf(name))
  {
    hide Foots, Separates, ItemsOf;
    FootOwned(t);
    FootOwned(t.(name := name));
  }
}
