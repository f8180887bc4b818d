/** Printing a tree and loading the text again, in the heap. */
module EndToEnd {
  import opened Bytes
  import opened Items
  import opened Numbers
  import opened PrintedText
  import opened Grammar
  import opened RoundTrip
  import opened Heap
  import opened Trees
  import opened Reading
  import opened Printing
  import opened Parsing

  lemma {:induction false} ParsesPrints(lib: Lib, it: Item, depth: nat)
    requires Parses(lib, it, depth)
    ensures Prints(lib, it, depth)
    decreases it, 1
  {
    hide NumberText;
    if it.kind == Array || it.kind == Object {
      ParsesPrintsAll(lib, it.kids, depth + 1);
    }
  }

  lemma {:induction false} ParsesPrintsAll(lib: Lib, kids: seq<Item>, depth: nat)
    requires ParsesAll(lib, kids, depth)
    ensures PrintsAll(lib, kids, depth)
    decreases kids, 0
  {
    hide Parses, Prints;
    if kids != [] {
      ParsesPrints(lib, kids[0], depth);
      ParsesPrintsAll(lib, kids[1..], depth);
    }
  }

  /**
   What is printed, formatted or not, and parsed with the terminator required
   is the tree again, in nodes of its own; without that, nothing stays
   allocated, and the allocator or the size of the text is to blame.
   */
  method PrintAndParse(mem: Memory, lib: Lib, root: Node, format: bool, ghost t: Tree) returns (item: Node?, ghost made: seq<Tree>)
    requires root == t.node && Readable(t) && Reach(t) <= mem.live && Parses(lib, ItemOf(t), 0)
    modifies mem
    ensures item != null ==>
              && ItemsOf(made) == [Kept(ItemOf(t), NoString)] && Rooted(item, made)
              && Foots(made) !! old(mem.live) && mem.live == old(mem.live) + Foots(made)
    ensures item == null ==>
              && mem.live == old(mem.live)
              && (mem.refusals > old(mem.refusals) || |Text(lib, ItemOf(t), 0, format)| + 2 > 0x7FFF_FFFF)
  {
    hide Readable, Reach, Parses, Prints, Text, ParseText, Kept, Shapes, Separates, Foots, ItemsOf;
    made := [];
    ParsesPrints(lib, ItemOf(t), 0);
    TextRoundTrip(lib, ItemOf(t), format);
    var printed := Printing.Print(mem, lib, root, format, t);
    if printed == null {
      return null, made;
    }
    var end;
    item, end, made := ParseWithLengthOpts(mem, lib, printed[..], true);
    NoFoots();
    DropBlock(mem, printed, item, made);
  }

  /** The text is freed; the tree stays. */
  method DropBlock(mem: Memory, printed: array<byte>, ghost item: Node?, ghost made: seq<Tree>)
    requires printed in mem.live && printed !in Foots(made) && Foots(made) <= mem.live
    requires item != null ==> Rooted(item, made)
    modifies mem`live
    ensures mem.live == old(mem.live) - {printed}
    ensures item != null ==> Rooted(item, made)
  {
    hide *;
    Aside(mem, made);
    mem.Free(printed);
  }
}
