/**
 The printing entry points: each way of supplying the buffer gives the same
 bytes, and says exactly when it gives none.
 */
module Printing {
  import opened Bytes
  import opened Seqs
  import opened Numbers
  import opened PrintedText
  import opened Heap
  import opened Trees
  import opened Reading
  import opened PrintBuffers

  const DEFAULT_BUFFER_SIZE: nat := 256

  /** Read as a C string, the array is `text`. */
  ghost predicate StartsAsString(a: array<byte>, text: seq<byte>)
    reads a
  {
    |text| < a.Length && a[..|text|] == text && a[|text|] == NUL
  }

  /** `print`, behind `cJSON_Print` and `cJSON_PrintUnformatted`: the text and its terminator in a block of just that size. */
  method Print(mem: Memory, lib: Lib, item: Node, format: bool, ghost t: Tree) returns (printed: array?<byte>)
    requires item == t.node && Readable(t) && Reach(t) <= mem.live
    modifies mem
    ensures mem.refusals >= old(mem.refusals)
    ensures printed != null ==>
              && Prints(lib, ItemOf(t), 0)
              && printed[..] == Text(lib, ItemOf(t), 0, format) + [NUL]
              && fresh(printed) && mem.live == old(mem.live) + {printed}
    ensures printed == null ==>
              && mem.live == old(mem.live)
              && (!Prints(lib, ItemOf(t), 0) || |Text(lib, ItemOf(t), 0, format)| + 2 > 0x7FFF_FFFF || mem.refusals > old(mem.refusals))
  {
    hide Prints, Text, Readable, Reach, ItemOf;
    printed := null;
    var first := mem.NewBytes(DEFAULT_BUFFER_SIZE);
    if first == null {
      return;
    }
    var p := new PrintBuffer(mem, first, DEFAULT_BUFFER_SIZE, false, format);
    var ok := p.PrintValue(lib, item, t, []);
    if ok {
      ghost var text := Text(lib, ItemOf(t), 0, format);
      TextHasNoNul(lib, ItemOf(t), 0, format);
      Empty(text);
      p.UpdateOffset(text);
      printed := CopyOut(p, text);
      if printed != null {
        return;
      }
    }
    if p.buffer != null {
      mem.Free(p.buffer);
    }
  }

  /** The end of `print`: the bytes up to the offset, moved to a block of their own. */
  method CopyOut(p: PrintBuffer, ghost text: seq<byte>) returns (printed: array?<byte>)
    requires p.Ready(text) && p.Holds(text) && !p.noalloc
    modifies p.mem
    ensures p.mem.refusals == old(p.mem.refusals) + (if printed == null then 1 else 0)
    ensures printed == null ==> p.mem.live == old(p.mem.live)
    ensures printed != null ==>
              && printed[..] == text + [NUL]
              && fresh(printed) && p.mem.live == old(p.mem.live) - {p.buffer} + {printed}
  {
    if p.mem.reallocates {
      printed := p.mem.Resize(p.buffer, p.offset + 1);
    } else {
      printed := p.mem.NewBytes(p.offset + 1);
      if printed != null {
        forall i | 0 <= i < p.offset + 1 && i < p.length {
          printed[i] := p.buffer[i];
        }
        printed[p.offset] := NUL;
        p.mem.Free(p.buffer);
      }
    }
    if printed != null {
      assert forall i :: 0 <= i < |text| ==> p.buffer[..p.offset][i] == text[i];
    }
  }

  /**
   `cJSON_PrintBuffered`: the text in the buffer that it grew. On its way there
   it reads a byte behind the end of a block exactly if it starts with an empty
   one and has no `realloc`.
   */
  method PrintBuffered(mem: Memory, lib: Lib, item: Node, prebuffer: int, format: bool, ghost t: Tree)
    returns (printed: array?<byte>, ghost overread: bool)
    requires item == t.node && Readable(t) && Reach(t) <= mem.live
    requires prebuffer <= INT_MAX
    modifies mem
    ensures mem.refusals >= old(mem.refusals)
    ensures printed != null ==>
              && prebuffer >= 0 && Prints(lib, ItemOf(t), 0)
              && StartsAsString(printed, Text(lib, ItemOf(t), 0, format))
              && fresh(printed) && mem.live == old(mem.live) + {printed}
    ensures printed == null ==>
              && mem.live == old(mem.live)
              && (prebuffer < 0 || !Prints(lib, ItemOf(t), 0) || |Text(lib, ItemOf(t), 0, format)| + 2 > 0x7FFF_FFFF || mem.refusals > old(mem.refusals))
    ensures overread ==> prebuffer == 0 && !mem.reallocates
    ensures printed != null && prebuffer == 0 && !mem.reallocates ==> overread
  {
    hide Prints, Text, Readable, Reach, ItemOf;
    printed, overread := null, false;
    if prebuffer < 0 {
      return;
    }
    var first := mem.NewBytes(prebuffer);
    if first == null {
      return;
    }
    var p := new PrintBuffer(mem, first, prebuffer, false, format);
    var ok := p.PrintValue(lib, item, t, []);
    overread := p.overread;
    if !ok {
      if p.buffer != null {
        mem.Free(p.buffer);
      }
      return;
    }
    assert [] + Text(lib, ItemOf(t), 0, format) == Text(lib, ItemOf(t), 0, format);
    printed := p.buffer;
  }

  /** `cJSON_PrintPreallocated`: two bytes beyond the text are what it takes, and what makes it succeed. */
  method PrintPreallocated(mem: Memory, lib: Lib, item: Node, buffer: array?<byte>, length: int, format: bool, ghost t: Tree)
    returns (ok: bool)
    requires item == t.node && Readable(t) && Reach(t) <= mem.live && buffer !in Reach(t)
    requires length <= INT_MAX && (buffer != null ==> length <= buffer.Length)
    modifies mem, buffer
    ensures ok <==> buffer != null && Prints(lib, ItemOf(t), 0) && length >= |Text(lib, ItemOf(t), 0, format)| + 2
    ensures ok ==> StartsAsString(buffer, Text(lib, ItemOf(t), 0, format))
    ensures mem.live == old(mem.live)
    ensures buffer != null && length >= 0 ==> buffer[length..] == old(buffer[length..])
  {
    hide Prints, Text, Readable, Reach, ItemOf;
    if length < 0 || buffer == null {
      return false;
    }
    var p := new PrintBuffer(mem, buffer, length, true, format);
    ok := p.PrintValue(lib, item, t, []);
    assert [] + Text(lib, ItemOf(t), 0, format) == Text(lib, ItemOf(t), 0, format);
  }
}
