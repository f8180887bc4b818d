/**
 The printer at work on its buffer: a growable one, or one supplied by the
 caller. Whatever the buffer, the bytes written are the item's text.
 */
module PrintBuffers {
  import opened Bytes
  import opened Seqs
  import opened Utf
  import opened Items
  import opened Numbers
  import opened StringCodec
  import opened PrintedText
  import opened Heap
  import opened Trees
  import opened Reading

  class PrintBuffer {
    var buffer: array?<byte>
    var length: nat
    var offset: nat
    var depth: nat
    /** Whether a byte behind the end of a block has been read. */
    ghost var overread: bool
    ghost const startsEmpty: bool
    const noalloc: bool
    const format: bool
    const mem: Memory

    constructor (mem: Memory, buffer: array<byte>, length: nat, noalloc: bool, format: bool)
      ensures this.mem == mem && this.buffer == buffer && this.length == length
      ensures this.noalloc == noalloc && this.format == format && offset == 0 && depth == 0
      ensures !overread && startsEmpty == (length == 0)
    {
      this.mem, this.buffer, this.length, this.noalloc, this.format := mem, buffer, length, noalloc, format;
      offset, depth, overread, startsEmpty := 0, 0, false, length == 0;
    }

    ghost predicate Sane()
      reads this`buffer, this`length, this`offset, this`overread, mem
    {
      && (overread ==> Overreads())
      && (buffer != null ==>
            && length <= buffer.Length && length <= INT_MAX
            && (length == 0 ==> offset == 0 && startsEmpty)
            && (length > 0 && Overreads() ==> overread)
            && (!noalloc ==> buffer in mem.live && length == buffer.Length))
    }

    /** Once it has grown, an empty buffer without `realloc` has been copied with a byte that it does not have. */
    ghost predicate Overreads() {
      startsEmpty && !noalloc && !mem.reallocates
    }

    /** `t` is in the buffer, and the next write goes behind it. */
    ghost predicate Ready(t: seq<byte>)
      reads this`buffer, this`length, this`offset, this`overread, mem, buffer
    {
      && Sane() && buffer != null
      && offset == |t| <= length && (length > 0 ==> offset < length)
      && buffer[..offset] == t
    }

    /** `t` is in the buffer as a C string. */
    ghost predicate Holds(t: seq<byte>)
      reads this`buffer, this`length, this`offset, this`overread, mem, buffer
    {
      && Sane() && buffer != null
      && |t| < length && buffer[..|t|] == t && buffer[|t|] == NUL
    }

    /** What else is allocated. */
    ghost function Others(): set<object>
      reads this`buffer, mem
    {
      if buffer == null then mem.live else mem.live - {buffer}
    }

    /** No text longer than this, with two bytes to spare, can be written. */
    ghost function Limit(): int
      reads this`length
    {
      if noalloc then length else INT_MAX
    }

    /** What every step keeps: a supplied buffer is never replaced or written past its length, and no other allocation is touched. */
    twostate predicate Follows()
      reads this`buffer, this`length, this`offset, this`overread, mem, buffer
    {
      && Sane() && Others() == old(Others()) && mem.refusals >= old(mem.refusals)
      && (buffer == null || buffer == old(buffer) || fresh(buffer))
      && (noalloc ==>
            && buffer == old(buffer) && length == old(length)
            && mem.live == old(mem.live) && mem.refusals == old(mem.refusals)
            && Behind() == old(Behind()))
    }

    /** What is behind the end of the buffer. */
    ghost function Behind(): seq<byte>
      reads this`buffer, this`length, buffer
    {
      if buffer != null && length <= buffer.Length then buffer[length..] else []
    }

    /** A step that writes `t` behind `before`: when it succeeds, and what it then leaves. */
    twostate predicate Outcome(ok: bool, prints: bool, before: seq<byte>, t: seq<byte>)
      reads this, mem, buffer
    {
      && Follows()
      && (ok ==> prints && |before| + |t| + 2 <= Limit())
      && (ok ==> depth == old(depth) && |before| <= offset <= |before| + |t| && Holds(before + t))
      && (!ok && prints ==> |before| + |t| + 2 > Limit() || mem.refusals > old(mem.refusals))
    }

    /** A step in the middle: it leaves the offset behind what it writes. */
    twostate predicate Progress(ok: bool, prints: bool, before: seq<byte>, t: seq<byte>)
      reads this, mem, buffer
    {
      && Follows()
      && (ok ==> prints && depth == old(depth) && Ready(before + t))
      && (!ok && prints ==> |before| + |t| + 2 > Limit() || mem.refusals > old(mem.refusals))
    }

    /** `ensure`. */
    method Ensure(want: nat, ghost before: seq<byte>) returns (ok: bool)
      requires Sane()
      modifies this, mem
      ensures Follows() && offset == old(offset) && depth == old(depth)
      ensures ok ==> old(buffer) != null && buffer != null && offset + want + 1 <= length && offset + want + 1 <= Limit()
      ensures ok ==> old(offset) <= old(length) && buffer[..offset] == old(buffer[..offset])
      ensures ok ==> var needed := want + offset + 1;
                     length == if needed <= old(length) then old(length) else if needed < 0x4000_0000 then 2 * needed else 0x7FFF_FFFF
      ensures !ok ==> old(buffer) == null || (old(length) > 0 && offset >= old(length))
                      || offset + want + 1 > Limit() || mem.refusals > old(mem.refusals)
    {
      if buffer == null {
        return false;
      }
      if length > 0 && offset >= length {
        return false;
      }
      if want > INT_MAX {
        return false;
      }
      var needed := want + offset + 1;
      if needed <= length {
        return true;
      }
      if noalloc {
        return false;
      }
      var newsize := needed * 2;
      if needed > INT_MAX / 2 {
        if needed > INT_MAX {
          return false;
        }
        newsize := INT_MAX;
      }
      ok := Grow(newsize);
    }

    /** The end of `ensure`: a larger block, and the text moved to it. */
    method Grow(newsize: nat) returns (ok: bool)
      requires Sane() && buffer != null && !noalloc && (length == 0 || offset < length)
      requires length < newsize <= INT_MAX && offset < newsize
      modifies this`buffer, this`length, this`overread, mem
      ensures Sane() && Others() == old(Others()) && mem.refusals >= old(mem.refusals)
      ensures overread == (old(overread) || (ok && !mem.reallocates && old(length) == 0))
      ensures ok ==> buffer != null && fresh(buffer) && length == newsize && buffer[..offset] == old(buffer[..offset])
      ensures !ok ==> buffer == null && mem.refusals > old(mem.refusals)
    {
      var newbuffer: array?<byte>;
      if mem.reallocates {
        newbuffer := mem.Resize(buffer, newsize);
      } else {
        newbuffer := mem.NewBytes(newsize);
        if newbuffer != null {
          forall i | 0 <= i < offset + 1 {
            newbuffer[i] := mem.Load(buffer, i);
          }
          overread := overread || offset + 1 > buffer.Length;
          mem.Free(buffer);
        }
      }
      if newbuffer == null {
        mem.Free(buffer);
        length, buffer := 0, null;
        return false;
      }
      assert newbuffer[..offset] == buffer[..offset];
      length, buffer := newsize, newbuffer;
      return true;
    }

    /** Copies bytes into the buffer, inside what is reserved. */
    method Store(at: nat, s: seq<byte>)
      requires buffer != null && at + |s| <= length <= buffer.Length
      modifies buffer
      ensures buffer[..at + |s|] == old(buffer[..at]) + s
      ensures forall i :: at + |s| <= i < buffer.Length ==> buffer[i] == old(buffer[i])
    {
      forall i | 0 <= i < |s| {
        buffer[at + i] := s[i];
      }
    }

    /** `strcpy`: the bytes and a terminator. */
    method StoreString(at: nat, s: seq<byte>)
      requires buffer != null && at + |s| + 1 <= length <= buffer.Length
      modifies buffer
      ensures buffer[..at + |s|] == old(buffer[..at]) + s && buffer[at + |s|] == NUL
      ensures forall i :: at + |s| + 1 <= i < buffer.Length ==> buffer[i] == old(buffer[i])
    {
      Store(at, s);
      buffer[at + |s|] := NUL;
    }

    /** `update_offset`: to the terminator of what was just written. */
    method UpdateOffset(ghost t: seq<byte>)
      requires Holds(t) && offset <= |t| && forall i :: offset <= i < |t| ==> t[i] != NUL
      modifies this`offset
      ensures Ready(t)
    {
      ghost var start := offset;
      while buffer[offset] != NUL
        invariant start <= offset <= |t|
        invariant Holds(t)
        decreases |t| - offset
      {
        offset := offset + 1;
      }
    }

    /** A fixed text: `ensure` and `strcpy`. */
    method PutText(s: seq<byte>, ghost before: seq<byte>) returns (ok: bool)
      requires Ready(before)
      modifies this, mem, buffer
      ensures Outcome(ok, true, before, s) && (ok ==> offset == old(offset))
    {
      ok := Ensure(|s| + 1, before);
      if ok {
        StoreString(offset, s);
      }
    }

    /** `print_number`. */
    method PrintNumber(lib: Lib, num: real, ghost before: seq<byte>) returns (ok: bool)
      requires Ready(before)
      modifies this, mem, buffer
      ensures Outcome(ok, |NumberText(lib, num)| < NUMBER_BUFFER, before, NumberText(lib, num))
    {
      hide NumberText;
      var text := NumberText(lib, num);
      if |text| > NUMBER_BUFFER - 1 {
        return false;
      }
      ok := PutText(text, before);
      if ok {
        offset := offset + |text|;
      }
    }

    /** `print_string_ptr`. */
    method PrintStringPtr(input: CString, ghost before: seq<byte>) returns (ok: bool)
      requires Ready(before)
      modifies this, mem, buffer
      ensures Outcome(ok, true, before, StringText(input))
    {
      if input == NoString {
        ok := PutText([QUOTE, QUOTE], before);
        assert StringText(input) == [QUOTE, QUOTE];
        return;
      }
      var x := input.chars;
      var escapes := CountEscapes(x);
      EscapeLength(x);
      var outputLength := |x| + escapes;
      ok := Ensure(outputLength + 3, before);
      if !ok {
        return;
      }
      if escapes == 0 {
        WritePlain(x, before);
      } else {
        WriteEscaped(x, outputLength, before);
      }
    }

    /** The case without escapes: `memcpy` between two quotes. */
    method WritePlain(x: CChars, ghost before: seq<byte>)
      requires Escape(x) == x && Ready(before) && offset + |x| + 3 <= length
      modifies buffer
      ensures Holds(before + Quoted(x))
      ensures buffer[length..] == old(buffer[length..])
    {
      hide Escape;
      Assoc([QUOTE], x, [QUOTE]);
      Store(offset, [QUOTE]);
      Store(offset + 1, x);
      Store(offset + |x| + 1, [QUOTE]);
      Assoc4(before, [QUOTE], x, [QUOTE]);
      Store(offset + |x| + 2, [NUL]);
      assert buffer[offset + |x| + 2] == NUL;
    }

    method WriteEscaped(x: CChars, outputLength: nat, ghost before: seq<byte>)
      requires outputLength == |Escape(x)| && Ready(before) && offset + outputLength + 3 <= length
      modifies buffer
      ensures Holds(before + Quoted(x))
      ensures buffer[length..] == old(buffer[length..])
    {
      hide Escape;
      ghost var e := Escape(x);
      Store(offset, [QUOTE]);
      WriteEscapes(x, before + [QUOTE]);
      Store(offset + outputLength + 1, [QUOTE]);
      Assoc4(before, [QUOTE], e, [QUOTE]);
      Store(offset + outputLength + 2, [NUL]);
      Assoc([QUOTE], e, [QUOTE]);
      assert buffer[offset + |e| + 2] == NUL;
    }

    /** The first pass of `print_string_ptr`. */
    static method CountEscapes(x: CChars) returns (escapes: nat)
      ensures escapes == Extra(x)
    {
      escapes := 0;
      for i := 0 to |x|
        invariant escapes == Extra(x[..i])
      {
        ExtraAppend(x[..i], x[i]);
        assert x[..i + 1] == x[..i] + [x[i]];
        var b := x[i];
        if b == QUOTE || b == BACKSLASH || b == 8 || b == 12 || b == NEWLINE || b == RETURN || b == TAB {
          escapes := escapes + 1;
        } else if b < 32 {
          escapes := escapes + 5;
        }
      }
      assert x[..|x|] == x;
    }

    /** The second pass of `print_string_ptr`; `sprintf` also writes a terminator, which the next byte replaces. */
    method WriteEscapes(x: CChars, ghost front: seq<byte>)
      requires buffer != null && length <= buffer.Length
      requires |front| == offset + 1 && offset + 1 + |Escape(x)| + 2 <= length
      requires buffer[..offset + 1] == front
      modifies buffer
      ensures buffer[..offset + 1 + |Escape(x)|] == front + Escape(x)
      ensures buffer[length..] == old(buffer[length..])
    {
      var into := offset + 1;
      for i := 0 to |x|
        invariant into == offset + 1 + |Escape(x[..i])|
        invariant into <= length && buffer[..into] == front + Escape(x[..i])
        invariant buffer[length..] == old(buffer[length..])
      {
        var b := x[i];
        EscapeAppend(x[..i], b);
        assert x[..i + 1] == x[..i] + [b];
        EscapeWithin(x, i + 1);
        Assoc(front, Escape(x[..i]), EscapeByte(b));
        into := WriteEscape(b, into);
      }
      assert x[..|x|] == x;
    }

    method WriteEscape(b: byte, start: nat) returns (into: nat)
      requires buffer != null && start + |EscapeByte(b)| + 1 <= length <= buffer.Length
      modifies buffer
      ensures into == start + |EscapeByte(b)|
      ensures buffer[..into] == old(buffer[..start]) + EscapeByte(b)
      ensures buffer[length..] == old(buffer[length..])
    {
      into := start;
      if b > 31 && b != QUOTE && b != BACKSLASH {
        buffer[into] := b;
        assert EscapeByte(b) == [b];
      } else {
        buffer[into] := BACKSLASH;
        into := into + 1;
        assert EscapeByte(b) == [BACKSLASH] + EscapeByte(b)[1..];
        Assoc(old(buffer[..start]), [BACKSLASH], EscapeByte(b)[1..]);
        into := WriteEscapeCode(b, into);
      }
      into := into + 1;
    }

    /** What follows the backslash; `last` is where its last byte went. */
    method WriteEscapeCode(b: byte, start: nat) returns (last: nat)
      requires |EscapeByte(b)| > 1
      requires buffer != null && start + |EscapeByte(b)| <= length <= buffer.Length
      modifies buffer
      ensures last + 2 == start + |EscapeByte(b)|
      ensures buffer[..last + 1] == old(buffer[..start]) + EscapeByte(b)[1..]
      ensures buffer[length..] == old(buffer[length..])
    {
      last := start;
      if b == BACKSLASH {
        buffer[last] := BACKSLASH;
      } else if b == QUOTE {
        buffer[last] := QUOTE;
      } else if b == 8 {
        buffer[last] := 98;
      } else if b == 12 {
        buffer[last] := 102;
      } else if b == NEWLINE {
        buffer[last] := 110;
      } else if b == RETURN {
        buffer[last] := 114;
      } else if b == TAB {
        buffer[last] := 116;
      } else {
        StoreString(last, [LOWER_U, 48, 48, HexDigit(b / 16), HexDigit(b % 16)]);
        last := last + 4;
      }
      assert ShortEscape(b).Chars? ==> EscapeByte(b)[1..] == [buffer[start]];
    }

    /** Reserves `want` bytes, writes `s` and moves the offset behind it. */
    method Append(s: seq<byte>, want: nat, terminate: bool, ghost before: seq<byte>) returns (ok: bool)
      requires |s| <= want <= |s| + 1 && (terminate ==> want == |s| + 1)
      requires Ready(before)
      modifies this, mem, buffer
      ensures Progress(ok, true, before, s)
    {
      ok := Ensure(want, before);
      if ok {
        if terminate {
          StoreString(offset, s);
        } else {
          Store(offset, s);
        }
        offset := offset + |s|;
      }
    }

    // ---- printing trees

    /** A tree to be printed: it shares nothing with the buffer. */
    ghost predicate Stands(t: Tree)
      reads this`buffer, mem, Reach(t)
    {
      Readable(t) && Reach(t) <= Others()
    }

    ghost predicate StandsAll(ts: seq<Tree>)
      reads this`buffer, mem, Reaches(ts)
    {
      List(ts) && Reaches(ts) <= Others()
    }

    /** `print_value`. */
    method PrintValue(lib: Lib, item: Node, ghost t: Tree, ghost before: seq<byte>) returns (ok: bool)
      requires Ready(before) && item == t.node && Stands(t)
      modifies this, mem, buffer
      ensures Outcome(ok, Prints(lib, ItemOf(t), old(depth)), before, Text(lib, ItemOf(t), old(depth), format))
      decreases t, 1
    {
      hide StringText, NumberText, List, Reach;
      TextOf(lib, ItemOf(t), depth, format);
      match item.kind {
        case Null =>
          ok := PutText(NULL_TEXT, before);
        case False =>
          ok := PutText(FALSE_TEXT, before);
        case True =>
          ok := PutText(TRUE_TEXT, before);
        case Number =>
          ok := PrintNumber(lib, item.num, before);
        case Raw =>
          if item.text == null {
            return false;
          }
          var text := LoadString(item.text, t.text);
          ok := PutText(text.chars, before);
        case String =>
          var text := LoadString(item.text, t.text);
          ok := PrintStringPtr(text, before);
        case Array =>
          ok := PrintArray(lib, item, t, before);
        case Object =>
          ok := PrintObject(lib, item, t, before);
        case Invalid =>
          ok := false;
      }
    }

    /** `print_array`. */
    method PrintArray(lib: Lib, item: Node, ghost t: Tree, ghost before: seq<byte>) returns (ok: bool)
      requires Ready(before) && item == t.node && Stands(t) && t.kind == Array
      modifies this, mem, buffer
      ensures Outcome(ok, Prints(lib, ItemOf(t), old(depth)), before, Text(lib, ItemOf(t), old(depth), format))
      decreases t, 0
    {
      hide Prints, PrintsAll, PrintElements, Text, OpenText, CloseText, Ready, Holds, Sane, Behind, Others, Stands, StandsAll, Reach, Reaches, ItemOf, ItemsOf;
      KidsStand(t);
      ArrayText(lib, ItemOf(t), depth, format, before);
      IsSane(before);
      AsideReach(this, t.kids);
      var child := item.child;
      if depth >= NESTING_LIMIT {
        return false;
      }
      var open := OpenText(Array, false);
      ok := AppendBeside(open, |open|, false, t.kids, before);
      if !ok {
        return;
      }
      depth := depth + 1;
      ok := PrintArrayRest(lib, child, t.kids, before + open);
      if ok {
        depth := depth - 1;
      }
    }

    /** The elements and the closing bracket. */
    method PrintArrayRest(lib: Lib, head: Node?, ghost ts: seq<Tree>, ghost before: seq<byte>) returns (ok: bool)
      requires Ready(before) && head == Head(ts) && StandsAll(ts)
      modifies this, mem, buffer
      ensures var elements := PrintElements(lib, ItemsOf(ts), old(depth), format, []);
              Outcome(ok, PrintsAll(lib, ItemsOf(ts), old(depth)), before, elements + CloseText(Array, 0, false))
      decreases ts, 2
    {
      hide PrintsAll, PrintElements, ItemsOf, Ready, Holds, Behind, List, Reaches;
      ghost var elements := PrintElements(lib, ItemsOf(ts), depth, format, []);
      ok := PrintAllElements(lib, head, ts, before);
      if ok {
        var close := CloseText(Array, 0, false);
        Assoc(before, elements, close);
        ok := PutText(close, before + elements);
      }
    }

    /** The loop of `print_array`. */
    method PrintAllElements(lib: Lib, head: Node?, ghost ts: seq<Tree>, ghost before: seq<byte>) returns (ok: bool)
      requires Ready(before) && head == Head(ts) && StandsAll(ts)
      modifies this, mem, buffer
      ensures Progress(ok, PrintsAll(lib, ItemsOf(ts), old(depth)), before, PrintElements(lib, ItemsOf(ts), old(depth), format, []))
      decreases ts, 1
    {
      hide Prints, PrintsAll, ElementText, PrintElements, List, Reaches, StandsAll, Others, ItemsOf, ItemOf, Ready, Sane, Behind;
      IsSane(before);
      ghost var kids := ItemsOf(ts);
      ghost var all := PrintElements(lib, kids, depth, format, []);
      ghost var done, i := before, 0;
      assert kids[0..] == kids;
      var child := head;
      while child != null
        invariant i <= |ts| && child == (if i < |ts| then ts[i].node else null) && StandsAll(ts)
        invariant Follows() && depth == old(depth) && Ready(done)
        invariant done + PrintElements(lib, kids[i..], depth, format, []) == before + all
        invariant PrintsAll(lib, kids, depth) == PrintsAll(lib, kids[i..], depth)
        decreases |ts| - i
      {
        ElementsSplit(lib, kids, i, depth, format);
        ghost var element := ElementText(lib, kids[i], depth, format, i + 1 == |ts|);
        Assoc(done, element, PrintElements(lib, kids[i + 1..], depth, format, []));
        ItemsAt(ts, i);
        ok := PrintElement(lib, child, ts, i, done);
        if !ok {
          return;
        }
        done := done + element;
        StandsSteps(ts, i);
        child := child.next;
        i := i + 1;
      }
      ok := true;
      assert kids[|kids|..] == [];
      NoElements(lib, depth, format);
      Empty(done);
    }

    /** One turn of that loop. */
    method PrintElement(lib: Lib, child: Node, ghost ts: seq<Tree>, ghost i: nat, ghost before: seq<byte>) returns (ok: bool)
      requires Ready(before) && StandsAll(ts) && i < |ts| && child == ts[i].node
      modifies this, mem, buffer
      ensures StandsAll(ts)
      ensures Progress(ok, Prints(lib, ItemOf(ts[i]), old(depth)), before, ElementText(lib, ItemOf(ts[i]), old(depth), format, i + 1 == |ts|))
      decreases ts, 0, 1
    {
      hide Prints, Text, List, Reaches, ItemOf, Ready, Holds, Sane, Behind;
      ghost var kid := ItemOf(ts[i]);
      ghost var t := before + Text(lib, kid, depth, format);
      ok := PrintValueBeside(lib, child, ts, i, before);
      if !ok {
        return;
      }
      TextHasNoNul(lib, kid, depth, format);
      UpdateBeside(ts, t);
      IsSane(t);
      StandsSteps(ts, i);
      var comma := CommaText(child.next == null, format);
      Assoc(before, Text(lib, kid, depth, format), comma);
      Empty(t);
      assert t + comma == before + ElementText(lib, kid, depth, format, i + 1 == |ts|);
      if child.next != null {
        ok := AppendBeside(comma, |comma| + 1, true, ts, t);
      }
    }

    // ---- the tree stays as it is

    method PrintValueBeside(lib: Lib, child: Node, ghost ts: seq<Tree>, ghost i: nat, ghost before: seq<byte>) returns (ok: bool)
      requires Ready(before) && StandsAll(ts) && i < |ts| && child == ts[i].node
      modifies this, mem, buffer
      ensures StandsAll(ts)
      ensures Outcome(ok, Prints(lib, ItemOf(ts[i]), old(depth)), before, Text(lib, ItemOf(ts[i]), old(depth), format))
      decreases ts, 0, 0
    {
      hide List, Reaches, Reach, Readable, ItemOf, Ready, Holds, Sane, Behind, Prints, Text;
      AsideReach(this, ts);
      AsideReach(mem, ts);
      KidStands(ts, i);
      ok := PrintValue(lib, child, ts[i], before);
    }

    method AppendBeside(s: seq<byte>, want: nat, terminate: bool, ghost ts: seq<Tree>, ghost before: seq<byte>) returns (ok: bool)
      requires |s| <= want <= |s| + 1 && (terminate ==> want == |s| + 1)
      requires Ready(before) && StandsAll(ts)
      modifies this, mem, buffer
      ensures StandsAll(ts) && Progress(ok, true, before, s)
    {
      hide List, Reaches, Ready, Holds, Sane, Behind;
      AsideReach(this, ts);
      AsideReach(mem, ts);
      ok := Append(s, want, terminate, before);
    }

    method UpdateBeside(ghost ts: seq<Tree>, ghost t: seq<byte>)
      requires Holds(t) && offset <= |t| && forall i :: offset <= i < |t| ==> t[i] != NUL
      requires StandsAll(ts)
      modifies this`offset
      ensures StandsAll(ts) && Ready(t)
    {
      hide List, Reaches, Ready, Holds, Behind;
      AsideReach(this, ts);
      UpdateOffset(t);
    }

    method PrintKeyBeside(name: CString, ghost ts: seq<Tree>, ghost before: seq<byte>) returns (ok: bool)
      requires Ready(before) && StandsAll(ts)
      modifies this, mem, buffer
      ensures StandsAll(ts) && Progress(ok, true, before, KeyText(name, old(depth), format))
    {
      hide List, Reaches, Ready, Holds, Sane, Behind, KeyText;
      AsideReach(this, ts);
      AsideReach(mem, ts);
      ok := PrintKey(name, before);
    }

    lemma IsSane(t: seq<byte>)
      requires Ready(t)
      ensures Sane()
    {}

    lemma {:induction false} KidsStand(t: Tree)
      requires Stands(t)
      ensures t.node.child == Head(t.kids) && StandsAll(t.kids)
      ensures ItemOf(t).kind == t.kind && ItemOf(t).kids == ItemsOf(t.kids)
    {
      hide Reaches, ItemsOf;
    }

    lemma {:induction false} StandsSteps(ts: seq<Tree>, i: nat)
      requires StandsAll(ts) && i < |ts|
      ensures ts[i].node.next == if i + 1 < |ts| then ts[i + 1].node else null
    {
      hide List, Reaches;
      ListSteps(ts, i);
    }

    lemma {:induction false} KidStands(ts: seq<Tree>, i: nat)
      requires StandsAll(ts) && i < |ts|
      ensures Stands(ts[i])
    {
      hide Readable, Reaches, Reach;
      ListReadable(ts, i);
    }

    /** `print_object`. */
    method PrintObject(lib: Lib, item: Node, ghost t: Tree, ghost before: seq<byte>) returns (ok: bool)
      requires Ready(before) && item == t.node && Stands(t) && t.kind == Object
      modifies this, mem, buffer
      ensures Outcome(ok, Prints(lib, ItemOf(t), old(depth)), before, Text(lib, ItemOf(t), old(depth), format))
      decreases t, 0
    {
      hide Prints, PrintsAll, PrintMembers, Text, OpenText, CloseText, Ready, Holds, Sane, Behind, Others, Stands, StandsAll, Reach, Reaches, ItemOf, ItemsOf;
      KidsStand(t);
      ObjectText(lib, ItemOf(t), depth, format, before);
      IsSane(before);
      AsideReach(this, t.kids);
      var child := item.child;
      if depth >= NESTING_LIMIT {
        return false;
      }
      var open := OpenText(Object, format);
      ok := AppendBeside(open, |open| + 1, false, t.kids, before);
      if !ok {
        return;
      }
      depth := depth + 1;
      ok := PrintObjectRest(lib, child, t.kids, before + open);
      if ok {
        depth := depth - 1;
      }
    }

    /** The members and the closing brace. */
    method PrintObjectRest(lib: Lib, head: Node?, ghost ts: seq<Tree>, ghost before: seq<byte>) returns (ok: bool)
      requires Ready(before) && head == Head(ts) && StandsAll(ts) && depth > 0
      modifies this, mem, buffer
      ensures var members := PrintMembers(lib, ItemsOf(ts), old(depth), format, []);
              Outcome(ok, PrintsAll(lib, ItemsOf(ts), old(depth)), before, members + CloseText(Object, old(depth) - 1, format))
      decreases ts, 2
    {
      hide PrintsAll, PrintMembers, ItemsOf, Ready, Holds, Behind, List, Reaches;
      ghost var members := PrintMembers(lib, ItemsOf(ts), depth, format, []);
      ok := PrintAllMembers(lib, head, ts, before);
      if ok {
        var close := CloseText(Object, depth - 1, format);
        Assoc(before, members, close);
        ok := PutText(close, before + members);
      }
    }

    /** The loop of `print_object`. */
    method PrintAllMembers(lib: Lib, head: Node?, ghost ts: seq<Tree>, ghost before: seq<byte>) returns (ok: bool)
      requires Ready(before) && head == Head(ts) && StandsAll(ts)
      modifies this, mem, buffer
      ensures Progress(ok, PrintsAll(lib, ItemsOf(ts), old(depth)), before, PrintMembers(lib, ItemsOf(ts), old(depth), format, []))
      decreases ts, 1
    {
      hide Prints, PrintsAll, MemberText, PrintMembers, List, Reaches, StandsAll, Others, ItemsOf, ItemOf, Ready, Sane, Behind;
      IsSane(before);
      ghost var kids := ItemsOf(ts);
      ghost var all := PrintMembers(lib, kids, depth, format, []);
      ghost var done, i := before, 0;
      assert kids[0..] == kids;
      var child := head;
      while child != null
        invariant i <= |ts| && child == (if i < |ts| then ts[i].node else null) && StandsAll(ts)
        invariant Follows() && depth == old(depth) && Ready(done)
        invariant done + PrintMembers(lib, kids[i..], depth, format, []) == before + all
        invariant PrintsAll(lib, kids, depth) == PrintsAll(lib, kids[i..], depth)
        decreases |ts| - i
      {
        MembersSplit(lib, kids, i, depth, format);
        ghost var member := MemberText(lib, kids[i], depth, format, i + 1 == |ts|);
        Assoc(done, member, PrintMembers(lib, kids[i + 1..], depth, format, []));
        ItemsAt(ts, i);
        ok := PrintMember(lib, child, ts, i, done);
        if !ok {
          return;
        }
        done := done + member;
        StandsSteps(ts, i);
        child := child.next;
        i := i + 1;
      }
      ok := true;
      assert kids[|kids|..] == [];
      NoElements(lib, depth, format);
      Empty(done);
    }

    /** One turn of that loop: indentation, key, colon, value and what separates it from the next. */
    method PrintMember(lib: Lib, child: Node, ghost ts: seq<Tree>, ghost i: nat, ghost before: seq<byte>) returns (ok: bool)
      requires Ready(before) && StandsAll(ts) && i < |ts| && child == ts[i].node
      modifies this, mem, buffer
      ensures StandsAll(ts)
      ensures Progress(ok, Prints(lib, ItemOf(ts[i]), old(depth)), before, MemberText(lib, ItemOf(ts[i]), old(depth), format, i + 1 == |ts|))
      decreases ts, 0, 2
    {
      hide Prints, Text, KeyText, List, Reaches, ItemOf;
      ghost var kid := ItemOf(ts[i]);
      ghost var key := KeyText(kid.name, depth, format);
      NameOf(ts, i);
      var name := LoadKey(child, ts[i].name);
      ok := PrintKeyBeside(name, ts, before);
      if ok {
        Assoc(before, key, Text(lib, kid, depth, format) + EndText(i + 1 == |ts|, format));
        ok := PrintMemberValue(lib, child, ts, i, before + key);
      }
    }

    /** The value of a member and what separates it from the next one. */
    method PrintMemberValue(lib: Lib, child: Node, ghost ts: seq<Tree>, ghost i: nat, ghost before: seq<byte>) returns (ok: bool)
      requires Ready(before) && StandsAll(ts) && i < |ts| && child == ts[i].node
      modifies this, mem, buffer
      ensures StandsAll(ts)
      ensures var kid := ItemOf(ts[i]);
              Progress(ok, Prints(lib, kid, old(depth)), before, Text(lib, kid, old(depth), format) + EndText(i + 1 == |ts|, format))
      decreases ts, 0, 1
    {
      hide Prints, Text, List, Reaches, ItemOf, Ready, Holds, Sane, Behind;
      ghost var kid := ItemOf(ts[i]);
      ghost var value := Text(lib, kid, depth, format);
      ok := PrintValueBeside(lib, child, ts, i, before);
      if !ok {
        return;
      }
      TextHasNoNul(lib, kid, depth, format);
      UpdateBeside(ts, before + value);
      StandsSteps(ts, i);
      var end := EndText(child.next == null, format);
      Assoc(before, value, end);
      ok := AppendBeside(end, |end| + 1, true, ts, before + value);
    }

    method PrintKey(name: CString, ghost before: seq<byte>) returns (ok: bool)
      requires Ready(before)
      modifies this, mem, buffer
      ensures Progress(ok, true, before, KeyText(name, old(depth), format))
    {
      hide StringText;
      ghost var indent := When(format, Tabs(depth));
      if format {
        ok := Append(Tabs(depth), depth, false, before);
        if !ok {
          return;
        }
      } else {
        Empty(before);
      }
      ok := PrintStringPtr(name, before + indent);
      if !ok {
        return;
      }
      StringTextHasNoNul(name);
      UpdateOffset(before + indent + StringText(name));
      var colon := if format then [COLON, TAB] else [COLON];
      Assoc4(before, indent, StringText(name), colon);
      ok := Append(colon, |colon|, false, before + indent + StringText(name));
    }
  }

  lemma {:induction false} NameOf(ts: seq<Tree>, i: nat)
    requires List(ts) && i < |ts|
    ensures ts[i].node.name == Pointer(ts[i].name) && ts[i].node.constKey == ConstOf(ts[i].name) && Written(ts[i].name)
    ensures ItemOf(ts[i]).name == CharsOf(ts[i].name)
  {
    hide List;
    assert Readable(ts[i]) by { ListReadable(ts, i); }
  }

  /** The text of each kind. */
  lemma TextOf(lib: Lib, it: Item, depth: nat, fmt: bool)
    ensures match it.kind
            case Null => Text(lib, it, depth, fmt) == NULL_TEXT
            case False => Text(lib, it, depth, fmt) == FALSE_TEXT
            case True => Text(lib, it, depth, fmt) == TRUE_TEXT
            case Number => Text(lib, it, depth, fmt) == NumberText(lib, it.num)
            case String => Text(lib, it, depth, fmt) == StringText(it.text)
            case Raw => it.text.Chars? ==> Text(lib, it, depth, fmt) == it.text.chars
            case _ => true
  {
    hide StringText, NumberText;
    Empty(NULL_TEXT);
    Empty(FALSE_TEXT);
    Empty(TRUE_TEXT);
    Empty(NumberText(lib, it.num));
    Empty(StringText(it.text));
    if it.text.Chars? { Empty(it.text.chars); }
  }

  /** What opens an array or an object. */
  function OpenText(kind: Kind, fmt: bool): seq<byte> {
    if kind.Array? then [LBRACKET] else if fmt then [LBRACE, NEWLINE] else [LBRACE]
  }

  /** What closes it. */
  function CloseText(kind: Kind, outer: nat, fmt: bool): seq<byte> {
    if kind.Array? then [RBRACKET] else (if fmt then Tabs(outer) else []) + [RBRACE]
  }

  /** What follows an element. */
  function CommaText(last: bool, fmt: bool): seq<byte> {
    if last then [] else if fmt then [COMMA, SPACE] else [COMMA]
  }

  /** What follows the value of a member. */
  function EndText(last: bool, fmt: bool): seq<byte> {
    (if last then [] else [COMMA]) + (if fmt then [NEWLINE] else [])
  }

  /** A member up to its value. */
  function KeyText(name: CString, depth: nat, fmt: bool): seq<byte> {
    When(fmt, Tabs(depth)) + (StringText(name) + (if fmt then [COLON, TAB] else [COLON]))
  }

  function MemberText(lib: Lib, kid: Item, depth: nat, fmt: bool, last: bool): seq<byte> {
    KeyText(kid.name, depth, fmt) + (Text(lib, kid, depth, fmt) + EndText(last, fmt))
  }

  lemma ObjectText(lib: Lib, it: Item, depth: nat, fmt: bool, before: seq<byte>)
    requires it.kind == Object
    ensures var members := PrintMembers(lib, it.kids, depth + 1, fmt, []);
            var open := OpenText(Object, fmt);
            var close := CloseText(Object, depth, fmt);
            && before + open + (members + close) == before + Text(lib, it, depth, fmt)
            && |Text(lib, it, depth, fmt)| == |open| + |members| + |close|
    ensures Prints(lib, it, depth) == (depth < NESTING_LIMIT && PrintsAll(lib, it.kids, depth + 1))
  {
    hide PrintMembers, PrintsAll, Tabs;
    var members := PrintMembers(lib, it.kids, depth + 1, fmt, []);
    var close := CloseText(Object, depth, fmt);
    Empty([RBRACE]);
    PrintMembersRest(lib, it.kids, depth + 1, fmt, [], close);
    Empty(close);
    Assoc([LBRACE], When(fmt, [NEWLINE]), members + close);
    var open := OpenText(Object, fmt);
    assert open == [LBRACE] + When(fmt, [NEWLINE]);
    Assoc(before, open, members + close);
  }

  lemma MembersSplit(lib: Lib, kids: seq<Item>, i: nat, depth: nat, fmt: bool)
    requires i < |kids|
    ensures PrintMembers(lib, kids[i..], depth, fmt, [])
         == MemberText(lib, kids[i], depth, fmt, i + 1 == |kids|) + PrintMembers(lib, kids[i + 1..], depth, fmt, [])
    ensures PrintsAll(lib, kids[i..], depth) == (Prints(lib, kids[i], depth) && PrintsAll(lib, kids[i + 1..], depth))
  {
    hide Print, Prints, StringText, Tabs;
    assert kids[i..][1..] == kids[i + 1..];
    var kid, last := kids[i], i + 1 == |kids|;
    var others := PrintMembers(lib, kids[i + 1..], depth, fmt, []);
    var more := MoreMembers(lib, kids[i + 1..], depth, fmt, []);
    var value := Text(lib, kid, depth, fmt);
    var colon := if fmt then [COLON, TAB] else [COLON];
    var end := EndText(last, fmt);
    Assoc(When(!last, [COMMA]), When(fmt, [NEWLINE]), others);
    assert more == end + others;
    TextRest(lib, kid, depth, fmt, more);
    Assoc(value, end, others);
    Assoc([COLON], When(fmt, [TAB]), value + more);
    assert [COLON] + When(fmt, [TAB]) == colon;
    Assoc(StringText(kid.name), colon, value + more);
    Assoc(When(fmt, Tabs(depth)), StringText(kid.name) + colon, value + more);
    Assoc(KeyText(kid.name, depth, fmt), value + end, others);
  }

  /** An element and the comma behind it. */
  function ElementText(lib: Lib, kid: Item, depth: nat, fmt: bool, last: bool): seq<byte> {
    Text(lib, kid, depth, fmt) + CommaText(last, fmt)
  }

  lemma ArrayText(lib: Lib, it: Item, depth: nat, fmt: bool, before: seq<byte>)
    requires it.kind == Array
    ensures var elements := PrintElements(lib, it.kids, depth + 1, fmt, []);
            var open, close := OpenText(Array, false), CloseText(Array, 0, false);
            && before + open + (elements + close) == before + Text(lib, it, depth, fmt)
            && |Text(lib, it, depth, fmt)| == |open| + |elements| + |close|
    ensures Prints(lib, it, depth) == (depth < NESTING_LIMIT && PrintsAll(lib, it.kids, depth + 1))
  {
    hide PrintElements, PrintsAll;
    Empty([RBRACKET]);
    PrintElementsRest(lib, it.kids, depth + 1, fmt, [], [RBRACKET]);
    Assoc(before, [LBRACKET], PrintElements(lib, it.kids, depth + 1, fmt, []) + [RBRACKET]);
  }

  lemma ElementsSplit(lib: Lib, kids: seq<Item>, i: nat, depth: nat, fmt: bool)
    requires i < |kids|
    ensures PrintElements(lib, kids[i..], depth, fmt, [])
         == ElementText(lib, kids[i], depth, fmt, i + 1 == |kids|) + PrintElements(lib, kids[i + 1..], depth, fmt, [])
    ensures PrintsAll(lib, kids[i..], depth) == (Prints(lib, kids[i], depth) && PrintsAll(lib, kids[i + 1..], depth))
  {
    hide Print, Prints;
    assert kids[i..][1..] == kids[i + 1..];
    var t := Text(lib, kids[i], depth, fmt);
    var others := PrintElements(lib, kids[i + 1..], depth, fmt, []);
    TextRest(lib, kids[i], depth, fmt, MoreElements(lib, kids[i + 1..], depth, fmt, []));
    if i + 1 == |kids| {
      Empty(t);
    } else {
      Assoc([COMMA], When(fmt, [SPACE]), others);
      assert [COMMA] + When(fmt, [SPACE]) == if fmt then [COMMA, SPACE] else [COMMA];
      Assoc(t, [COMMA] + When(fmt, [SPACE]), others);
    }
  }

  lemma NoElements(lib: Lib, depth: nat, fmt: bool)
    ensures PrintElements(lib, [], depth, fmt, []) == PrintMembers(lib, [], depth, fmt, []) == []
    ensures PrintsAll(lib, [], depth)
  {}

  // ---- no text has a NUL in it

  predicate NoNul(s: seq<byte>) {
    forall i :: 0 <= i < |s| ==> s[i] != NUL
  }

  lemma NoNulJoins(a: seq<byte>, b: seq<byte>)
    requires NoNul(a) && NoNul(b)
    ensures NoNul(a + b)
  {}

  lemma TextHasNoNul(lib: Lib, it: Item, depth: nat, fmt: bool)
    ensures NoNul(Text(lib, it, depth, fmt))
  {
    PrintHasNoNul(lib, it, depth, fmt, []);
  }

  lemma {:induction false} PrintHasNoNul(lib: Lib, it: Item, depth: nat, fmt: bool, rest: seq<byte>)
    requires NoNul(rest)
    ensures NoNul(Print(lib, it, depth, fmt, rest))
    decreases it, 0
  {
    hide StringText, NumberText, PrintElements, PrintMembers;
    match it.kind {
      case String => StringTextHasNoNul(it.text);
      case Array => PrintElementsHasNoNul(lib, it.kids, depth + 1, fmt, [RBRACKET] + rest);
      case Object =>
        NoNulJoins(When(fmt, Tabs(depth)), [RBRACE] + rest);
        PrintMembersHasNoNul(lib, it.kids, depth + 1, fmt, When(fmt, Tabs(depth)) + ([RBRACE] + rest));
      case _ =>
    }
  }

  lemma StringTextHasNoNul(x: CString)
    ensures NoNul(StringText(x))
  {
    hide Escape;
    NoNulInEscape(if x.Chars? then x.chars else []);
  }

  lemma {:induction false} PrintElementsHasNoNul(lib: Lib, kids: seq<Item>, depth: nat, fmt: bool, rest: seq<byte>)
    requires NoNul(rest)
    ensures NoNul(PrintElements(lib, kids, depth, fmt, rest))
    decreases kids, 0
  {
    hide Print;
    if kids != [] {
      PrintElementsHasNoNul(lib, kids[1..], depth, fmt, rest);
      var others := PrintElements(lib, kids[1..], depth, fmt, rest);
      NoNulJoins(When(fmt, [SPACE]), others);
      PrintHasNoNul(lib, kids[0], depth, fmt, MoreElements(lib, kids[1..], depth, fmt, rest));
    }
  }

  lemma {:induction false} PrintMembersHasNoNul(lib: Lib, kids: seq<Item>, depth: nat, fmt: bool, rest: seq<byte>)
    requires NoNul(rest)
    ensures NoNul(PrintMembers(lib, kids, depth, fmt, rest))
    decreases kids, 0
  {
    hide Print, StringText, Tabs;
    if kids != [] {
      PrintMembersHasNoNul(lib, kids[1..], depth, fmt, rest);
      var others := PrintMembers(lib, kids[1..], depth, fmt, rest);
      NoNulJoins(When(fmt, [NEWLINE]), others);
      var more := MoreMembers(lib, kids[1..], depth, fmt, rest);
      PrintHasNoNul(lib, kids[0], depth, fmt, more);
      StringTextHasNoNul(kids[0].name);
      var value := When(fmt, [TAB]) + Print(lib, kids[0], depth, fmt, more);
      NoNulJoins(StringText(kids[0].name), [COLON] + value);
      assert NoNul(When(fmt, Tabs(depth)));
      NoNulJoins(When(fmt, Tabs(depth)), PrintMember(lib, kids[0], depth, fmt, more));
    }
  }

  lemma {:induction false} EscapeWithin(x: seq<byte>, i: nat)
    requires i <= |x|
    ensures |Escape(x[..i])| <= |Escape(x)|
    decreases |x| - i
  {
    if i < |x| {
      EscapeAppend(x[..i], x[i]);
      assert x[..i + 1] == x[..i] + [x[i]];
      EscapeWithin(x, i + 1);
    } else {
      assert x[..i] == x;
    }
  }
}
