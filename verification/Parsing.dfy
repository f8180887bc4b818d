/**
 `cJSON_ParseWithLengthOpts` and its conservation of the heap.
 */
module Parsing {
  import opened Bytes
  import opened Numbers
  import opened StringCodec
  import opened Grammar
  import opened Heap
  import opened Trees
  import opened Parser

  /** A tree is in the heap at `item`, which has no siblings. */
  ghost predicate Rooted(item: Node, made: seq<Tree>)
    reads Foots(made)
  {
    && |made| == 1 && made[0].node == item && Shapes(made) && Separates(made) && Plains(made)
    && item.next == item.prev == null
  }

  /**
   `cJSON_ParseWithLengthOpts`; no bytes stand for a NULL buffer, too. `end` is
   where `return_parse_end` then points: behind the value, or at what could not
   be parsed, which is the last byte if all were looked at. A parse that fails leaves nothing
   allocated, one that succeeds nothing but the tree, whatever the allocator
   refuses; and without a refusal it does what the grammar says.
   */
  method ParseWithLengthOpts(mem: Memory, lib: Lib, content: seq<byte>, requireNull: bool)
    returns (item: Node?, end: nat, ghost made: seq<Tree>)
    modifies mem
    ensures mem.refusals >= old(mem.refusals) && (item == null ==> made == [])
    ensures var r := ParseText(lib, content, requireNull);
            if item != null then
              && r.Ok? && ItemsOf(made) == [r.value] && end <= |content| && content[end..] == r.rest
              && Rooted(item, made) && Foots(made) !! old(mem.live) && mem.live == old(mem.live) + Foots(made)
            else
              && mem.live == old(mem.live)
              && (mem.refusals > old(mem.refusals)
                  || (r.Err? && if r.rest != [] then end < |content| && content[end..] == r.rest
                                else end == if |content| == 0 then 0 else |content| - 1))
  {
    hide ParseText, ParseBuffer.At, ParseBuffer.Left, Rooted, Plain, ItemOf, ItemsOf, Shape, Shapes, Separate, Separates, Foot, Foots, Owned;
    ghost var r := ParseText(lib, content, requireNull);
    item, end, made := null, 0, [];
    if content == [] {
      NothingToParse(lib, requireNull);
      return;
    }
    var root := mem.NewNode();
    var buffer := new ParseBuffer(mem, content);
    if root == null {
      return;
    }
    var ok;
    ghost var t;
    ok, t := buffer.ReadText(lib, root, requireNull);
    Alone(t);
    if ok {
      RootedAlone(root, t);
      buffer.Where(r.rest);
      item, end, made := root, buffer.offset, [t];
    } else {
      if mem.refusals == old(mem.refusals) {
        buffer.Where(r.rest);
      }
      end := if buffer.offset < |content| then buffer.offset else |content| - 1;
      ShapeIsLoose(t);
      DeleteRoot(mem, root, t);
    }
  }

  lemma {:induction false} RootedAlone(item: Node, t: Tree)
    requires t.node == item && Shape(t) && Separate(t) && Plain(t) && item.next == item.prev == null
    ensures Rooted(item, [t])
  {
    hide Shape, Separate, Plain;
    Alone(t);
  }

  lemma NothingToParse(lib: Lib, requireNull: bool)
    ensures ParseText(lib, [], requireNull) == Err([])
  {}

  /** What a successful parse returns, `cJSON_Delete` gives back, each block once. */
  method ParseAndDelete(mem: Memory, lib: Lib, content: seq<byte>, requireNull: bool) returns (parsed: bool)
    modifies mem
    ensures mem.live == old(mem.live)
    ensures mem.refusals == old(mem.refusals) ==> parsed == ParseText(lib, content, requireNull).Ok?
  {
    hide ParseText, Shape, Separates, Foots;
    var item, end;
    ghost var made;
    item, end, made := ParseWithLengthOpts(mem, lib, content, requireNull);
    parsed := item != null;
    if item != null {
      ShapesAreLoose(made);
      Delete(mem, item, made);
    }
  }
}
