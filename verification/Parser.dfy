/**
 The parser at work: it advances an offset over the input and builds nodes in
 the heap. What it returns is what the grammar says of the text at the offset;
 when it fails, everything that it allocated is free again.
 */
module Parser {
  import opened Bytes
  import opened Seqs
  import opened Utf
  import opened Items
  import opened Numbers
  import opened StringCodec
  import opened Grammar
  import opened Heap
  import opened Trees

  function Rest(s: seq<byte>): (r: seq<byte>)
    requires s != []
    ensures |r| == |s| - 1
  {
    s[1..]
  }

  class ParseBuffer {
    const content: seq<byte>
    const mem: Memory
    var offset: nat
    var depth: nat

    constructor (mem: Memory, content: seq<byte>)
      ensures this.mem == mem && this.content == content && offset == depth == 0
    {
      this.mem, this.content, offset, depth := mem, content, 0, 0;
    }

    /** `s` is what is left of the input. */
    ghost predicate At(s: seq<byte>)
      reads this`offset
    {
      offset <= |content| && Left(offset) == s
    }

    function Left(k: nat): seq<byte>
      requires k <= |content|
    {
      content[k..]
    }

    predicate CanAccess(index: nat)
      reads this`offset
    {
      offset + index < |content|
    }

    /** `can_read` and `strncmp`. */
    predicate Sees(word: seq<byte>)
      requires offset <= |content|
      reads this`offset
      ensures Sees(word) == (word <= content[offset..])
    {
      offset + |word| <= |content| && content[offset..offset + |word|] == word
    }

    /** `buffer_skip_whitespace`. */
    method BufferSkipWhitespace(ghost s: seq<byte>)
      requires At(s)
      modifies this`offset
      ensures At(SkipWhitespace(s))
    {
      hide SkipWhitespace;
      if !CanAccess(0) {
        NothingToSkip();
        return;
      }
      ghost var start := offset;
      while CanAccess(0) && content[offset] <= SPACE
        invariant start <= offset <= |content|
        invariant if offset < |content| then SkipWhitespace(s) == SkipWhitespace(content[offset..])
                  else start < offset && SkipWhitespace(s) == content[offset - 1..]
        decreases |content| - offset
      {
        SkipStep(content, offset);
        offset := offset + 1;
      }
      if offset == |content| {
        offset := offset - 1;
      } else {
        SkipStep(content, offset);
      }
    }

    /** The byte at the offset is the one in front of `s`. */
    ghost predicate Before(s: seq<byte>)
      reads this`offset
    {
      offset < |content| && Left(offset + 1) == s
    }

    lemma Peek(s: seq<byte>)
      requires At(s)
      ensures CanAccess(0) == (s != [])
      ensures s != [] ==> offset < |content| && content[offset] == s[0] && Before(s[1..])
    {}

    /** Past a bracket, comma or colon, and the white space behind it. */
    method Advance(ghost here: seq<byte>)
      requires At(here) && here != []
      modifies this`offset
      ensures At(SkipWhitespace(Rest(here))) && offset > 0
    {
      hide SkipWhitespace;
      SkipsToEnd(Rest(here));
      offset := offset + 1;
      BufferSkipWhitespace(Rest(here));
    }

    method StepBack(ghost first: seq<byte>) returns (ghost here: seq<byte>)
      requires At(first) && offset > 0
      modifies this`offset
      ensures At(here) && here != [] && Rest(here) == first
    {
      offset := offset - 1;
      here := content[offset..];
    }

    /** `parse_number`. The temporary buffer is one more request that may be refused. */
    method ReadNumber(lib: Lib, item: Node, ghost s: seq<byte>) returns (ok: bool)
      requires At(s)
      modifies this`offset, mem, item`kind, item`num
      ensures mem.live == old(mem.live) && mem.refusals >= old(mem.refusals)
      ensures var r := ParseNumber(lib, s);
              && (ok ==> offset <= |content| && r == Ok(BLANK.(kind := item.kind, num := item.num), content[offset..]))
              && (!ok ==> mem.refusals > old(mem.refusals) || (r.Err? && At(r.rest)))
    {
      hide NumberSpan;
      var length := SpanLength(s);
      var text := mem.NewBytes(length + 1);
      if text == null {
        return false;
      }
      forall i | 0 <= i < length {
        text[i] := content[offset + i];
      }
      text[length] := NUL;
      assert text[..length] == NumberSpan(s);
      var scan := Strtod(lib, text[..length]);
      if scan.used == 0 {
        mem.Free(text);
        return false;
      }
      item.num := scan.value;
      item.kind := Number;
      assert s[scan.used..] == content[offset + scan.used..];
      offset := offset + scan.used;
      mem.Free(text);
      return true;
    }

    /** The loop of `parse_number` that finds how long the number may be. */
    method SpanLength(ghost s: seq<byte>) returns (length: nat)
      requires At(s)
      ensures offset + length <= |content| && NumberSpan(s) == content[offset..offset + length]
    {
      hide NumberSpan;
      length := 0;
      while CanAccess(length) && NumberByte(content[offset + length])
        invariant offset + length <= |content|
        invariant |NumberSpan(s)| == length + |NumberSpan(content[offset + length..])|
        decreases |content| - length
      {
        SpanStep(content, offset + length);
        length := length + 1;
      }
      SpanStep(content, offset + length);
      DropDrop(content, offset, length);
    }

    /** The first pass of `parse_string`: where the literal ends, and how many escapes it skips. */
    method FindEnd(start: nat) returns (found: bool, end: nat, skipped: nat)
      requires start <= |content|
      ensures var c := FindClose(content[start..]);
              && found == c.Close?
              && (found ==> end == start + c.at && skipped == c.skipped)
    {
      hide FindClose;
      end, skipped := start, 0;
      while end < |content| && content[end] != QUOTE
        invariant start <= end <= |content|
        invariant FindClose(content[start..]) == Behind(end - start, skipped, FindClose(content[end..]))
        decreases |content| - end
      {
        CloseStep(content, end);
        if content[end] == BACKSLASH {
          if end + 1 >= |content| {
            return false, end, skipped;
          }
          skipped := skipped + 1;
          end := end + 1;
        }
        end := end + 1;
      }
      CloseFound(content, end);
      found := end < |content|;
    }

    /** One turn of the second pass; zero for the bytes used means a bad escape. */
    method DecodeOne(stop: nat, end: nat, output: array<byte>, start: nat) returns (used: nat, into: nat)
      requires stop < end < |content| && content[end] == QUOTE
      requires var step := DecodeStep(content[stop..end]);
               start <= output.Length && (step.Step? ==> start + |step.bytes| <= output.Length)
      modifies output
      ensures match DecodeStep(content[stop..end])
              case BadStep => used == 0
              case Step(bytes, n) =>
                used == n && into == start + |bytes| <= output.Length && output[..into] == old(output[..start]) + bytes
    {
      ghost var b := content[stop..end];
      into := start;
      if content[stop] != BACKSLASH {
        output[into] := content[stop];
        return 1, into + 1;
      }
      var c := content[stop + 1];
      assert c == if |b| > 1 then b[1] else QUOTE;
      if c == LOWER_U {
        used, into := Utf16LiteralToUtf8(content, stop, end, output, into);
        return;
      }
      if c == 98 {
        output[into] := 8;
      } else if c == 102 {
        output[into] := 12;
      } else if c == 110 {
        output[into] := NEWLINE;
      } else if c == 114 {
        output[into] := RETURN;
      } else if c == 116 {
        output[into] := TAB;
      } else if c == QUOTE || c == BACKSLASH || c == SLASH {
        output[into] := c;
      } else {
        return 0, into;
      }
      return 2, into + 1;
    }

    /** The second pass of `parse_string`: decodes the literal between `start` and `end` into a block of the size that the first pass computed. */
    method DecodeInto(start: nat, end: nat, output: array<byte>) returns (ok: bool, stop: nat)
      requires start <= end < |content| && content[end] == QUOTE
      requires var c := FindClose(content[start..]);
               c.Close? && c.at == end - start && output.Length == AllocationSize(c)
      modifies output
      ensures match Decode(content[start..end])
              case Bad(at) => !ok && stop == start + at
              case Good(bytes) => ok && |bytes| < output.Length && output[..|bytes|] == bytes && output[|bytes|] == NUL
    {
      hide Decode, DecodeStep, FindClose, Pass;
      ghost var body, b := content[start..], content[start..end];
      DropDrop(content, start, end - start);
      ghost var turns := 0;
      var into: nat := 0;
      stop := start;
      PassStarts(b);
      SizeSuffices(body, 0);
      while stop < end
        invariant start <= stop && into < output.Length
        invariant Pass(b, turns) == Progress(stop - start, output[..into])
        decreases end - stop
      {
        assert b[stop - start..] == content[stop..end];
        PassTurns(b, turns);
        SizeSuffices(body, turns + 1);
        var used;
        used, into := DecodeOne(stop, end, output, into);
        if used == 0 {
          PassStops(b, turns);
          return false, stop;
        }
        stop := stop + used;
        turns := turns + 1;
      }
      PassEnds(b, turns);
      output[into] := NUL;
      return true, stop;
    }

    /** `parse_string`. */
    method ReadString(item: Node, ghost s: seq<byte>) returns (ok: bool, ghost text: Str)
      requires At(s) && s != [] && item.text == null
      modifies this`offset, mem, item`kind, item`text
      ensures mem.refusals >= old(mem.refusals)
      ensures var r := ParseString(s);
              && (ok ==> r.Ok? && At(r.rest) && CharsOf(text) == r.value && item.kind == String)
              && (!ok ==> mem.refusals > old(mem.refusals) || (r.Err? && At(r.rest)))
      ensures item.text == Pointer(text) && Written(text) && !text.Const? && Block(text) !! old(mem.live)
      ensures mem.live == old(mem.live) + Block(text) && (!ok ==> text == NoStr)
    {
      hide FindClose, Decode, ParseString;
      text := NoStr;
      StringAt(content, offset);
      var inputPointer := offset + 1;
      if content[offset] != QUOTE {
        offset := inputPointer;
        return false, text;
      }
      var found, inputEnd, skipped := FindEnd(inputPointer);
      if !found {
        offset := inputPointer;
        return false, text;
      }
      ok, text := ReadBody(item, inputPointer, inputEnd, skipped);
    }

    /** The rest of `parse_string`, once the closing quote is found. */
    method ReadBody(item: Node, start: nat, inputEnd: nat, skipped: nat) returns (ok: bool, ghost text: Str)
      requires offset + 1 == start <= inputEnd < |content| && item.text == null
      requires FindClose(content[start..]) == Close(inputEnd - start, skipped)
      modifies this`offset, mem, item`kind, item`text
      ensures mem.refusals >= old(mem.refusals) && offset <= |content|
      ensures match Decode(content[start..inputEnd])
              case Bad(at) => !ok && (mem.refusals > old(mem.refusals) || offset == start + at)
              case Good(bytes) =>
                if ok then CharsOf(text) == Chars(BeforeNul(bytes)) && item.kind == String && offset == inputEnd + 1
                else mem.refusals > old(mem.refusals)
      ensures item.text == Pointer(text) && Written(text) && !text.Const? && Block(text) !! old(mem.live)
      ensures mem.live == old(mem.live) + Block(text) && (!ok ==> text == NoStr)
    {
      hide FindClose, Decode;
      text := NoStr;
      var inputPointer := start;
      Reserved(content[inputPointer..]);
      var output := mem.NewBytes(inputEnd - offset - skipped + 1);
      if output == null {
        offset := inputPointer;
        return false, text;
      }
      ok, inputPointer := DecodeInto(inputPointer, inputEnd, output);
      if !ok {
        mem.Free(output);
        offset := inputPointer;
        return;
      }
      ghost var bytes := Decode(content[offset + 1..inputEnd]).bytes;
      text := Str(output, BeforeNul(bytes));
      StopsAtNul(output, bytes);
      item.kind := String;
      item.text := output;
      offset := inputEnd + 1;
    }

    /** The blocks of a value are new, and live; `t` is in the heap at `item`. */
    twostate predicate Built(item: Node, new t: Tree, name: Str)
      reads this`offset, mem, item, Foot(t)
    {
      && t.node == item && t.name == name && Shape(t) && Separate(t) && Plain(t)
      && Owned(t) !! old(mem.live) && mem.live == old(mem.live) + Owned(t)
      && mem.refusals >= old(mem.refusals)
    }

    /** A value read into a node: what it denotes and where the offset then is. Without success the node has none still. */
    twostate predicate Parsed(ok: bool, r: Parse<Item>, item: Node, new t: Tree, name: Str)
      reads this`offset, this`depth, mem, item, Foot(t)
    {
      && Built(item, t, name)
      && (ok ==> r.Ok? && At(r.rest) && depth == old(depth) && ItemOf(t) == r.value.(name := CharsOf(name)))
      && (!ok ==> Owned(t) == {} && (mem.refusals > old(mem.refusals) || (r.Err? && At(r.rest))))
    }

    /** What `parse_value` demands of the node. */
    ghost predicate Receives(item: Node, name: Str)
      reads mem, item, Block(name)
    {
      Vacant(item, name) && item in mem.live && Block(name) <= mem.live
    }

    method Accept(item: Node, word: seq<byte>, kind: Kind, ghost name: Str, ghost s: seq<byte>) returns (ghost t: Tree)
      requires At(s) && word <= s && Receives(item, name)
      modifies this`offset, item`kind
      ensures Parsed(true, Ok(BLANK.(kind := kind), s[|word|..]), item, t, name)
    {
      item.kind := kind;
      DropDrop(content, offset, |word|);
      offset := offset + |word|;
      t := Tree(item, kind, 0.0, NoStr, name, []);
      LeafShape(t);
    }

    method ReadStringValue(item: Node, ghost name: Str, ghost s: seq<byte>) returns (ok: bool, ghost t: Tree)
      requires At(s) && s != [] && Receives(item, name)
      modifies this`offset, mem, item`kind, item`text
      ensures var r := ParseString(s);
              Parsed(ok, if r.Ok? then Ok(BLANK.(kind := String, text := r.value), r.rest) else Err(r.rest), item, t, name)
    {
      hide ParseString;
      ghost var text;
      ok, text := ReadString(item, s);
      t := Tree(item, item.kind, 0.0, text, name, []);
      LeafShape(t);
    }

    method ReadNumberValue(lib: Lib, item: Node, ghost name: Str, ghost s: seq<byte>) returns (ok: bool, ghost t: Tree)
      requires At(s) && Receives(item, name)
      modifies this`offset, mem, item`kind, item`num
      ensures Parsed(ok, ParseNumber(lib, s), item, t, name)
    {
      hide ParseNumber;
      ok := ReadNumber(lib, item, s);
      t := Tree(item, item.kind, item.num, NoStr, name, []);
      LeafShape(t);
    }

    /** `parse_value`. */
    method ReadValue(lib: Lib, item: Node, ghost name: Str, ghost s: seq<byte>) returns (ok: bool, ghost t: Tree)
      requires At(s) && Receives(item, name) && depth <= NESTING_LIMIT
      modifies this`offset, this`depth, mem, item`kind, item`num, item`text, item`child
      ensures Parsed(ok, ParseValue(lib, s, old(depth)), item, t, name)
      ensures depth <= NESTING_LIMIT
      decreases |s|, 4
    {
      hide ParseArray, ParseObject, ParseString, ParseNumber, Parsed, Receives, Owned;
      ok := true;
      if Sees(NULL_TEXT) {
        t := Accept(item, NULL_TEXT, Null, name, s);
      } else if Sees(FALSE_TEXT) {
        t := Accept(item, FALSE_TEXT, False, name, s);
      } else if Sees(TRUE_TEXT) {
        t := Accept(item, TRUE_TEXT, True, name, s);
      } else if CanAccess(0) && content[offset] == QUOTE {
        ok, t := ReadStringValue(item, name, s);
      } else if CanAccess(0) && (content[offset] == MINUS || 48 <= content[offset] <= 57) {
        ok, t := ReadNumberValue(lib, item, name, s);
      } else if CanAccess(0) && content[offset] == LBRACKET {
        ok, t := ReadArray(lib, item, name, s);
      } else if CanAccess(0) && content[offset] == LBRACE {
        ok, t := ReadObject(lib, item, name, s);
      } else {
        ok := false;
        t := Nothing(item, name, s);
      }
    }

    /** The outcome of reading no value at all. */
    ghost method Nothing(item: Node, name: Str, s: seq<byte>) returns (t: Tree)
      requires At(s) && Receives(item, name)
      ensures Parsed(false, Err(s), item, t, name)
    {
      t := Tree(item, item.kind, item.num, NoStr, name, []);
      LeafShape(t);
    }

    /** A list read so far, all of it new: on success up to the closing bracket, on failure to be deleted. */
    twostate predicate Listed(ok: bool, r: Parse<seq<Item>>, new head: Node?, new tail: Node?, new ts: seq<Tree>)
      reads this`offset, mem, Foots(ts)
    {
      && Growing(head, tail, ts) && Owns(mem, old(mem.live), ts)
      && (head != null ==> fresh(head))
      && mem.refusals >= old(mem.refusals)
      && (ok ==> r.Ok? && Before(r.rest) && ItemsOf(ts) == r.value)
      && (!ok ==> mem.refusals > old(mem.refusals) || (r.Err? && At(r.rest)))
    }

    /** `parse_array`. */
    method ReadArray(lib: Lib, item: Node, ghost name: Str, ghost s: seq<byte>) returns (ok: bool, ghost t: Tree)
      requires At(s) && s != [] && s[0] == LBRACKET && Receives(item, name) && depth <= NESTING_LIMIT
      modifies this`offset, this`depth, mem, item`kind, item`num, item`text, item`child
      ensures Parsed(ok, ParseArray(lib, s, old(depth)), item, t, name)
      ensures depth <= NESTING_LIMIT
      decreases |s|, 3
    {
      hide ParseArray, ArrayList, Foots, Separates, Shapes, Shape, Separate, Growing, ItemOf, ItemsOf, At, Left, Before;
      ArrayIsList(lib, s, depth);
      if depth >= NESTING_LIMIT {
        ok := false;
        t := Nothing(item, name, s);
        return;
      }
      depth := depth + 1;
      var head, tail;
      ghost var ts;
      ok, head, tail, ts := ReadArrayList(lib, s);
      t := Conclude(ok, ArrayList(lib, s, old(depth)), item, Array, head, tail, name, ts, old(mem.live));
    }

    /** The ends of `parse_array` and `parse_object`: the list is adopted or deleted. */
    method Conclude(ok: bool, ghost r: Parse<seq<Item>>, item: Node, kind: Kind, head: Node?, tail: Node?,
                    ghost name: Str, ghost ts: seq<Tree>, ghost base: set<object>)
      returns (ghost t: Tree)
      requires Growing(head, tail, ts) && Owns(mem, base, ts)
      requires Vacant(item, name) && item in base && Block(name) <= base
      requires ok ==> depth > 0 && r.Ok? && Before(r.rest) && ItemsOf(ts) == r.value
      modifies this`offset, this`depth, mem`live, item`kind, item`child, if head == null then {} else {head}
      ensures t.node == item && t.name == name && Shape(t) && Separate(t) && Plain(t)
      ensures Owned(t) !! base && mem.live == base + Owned(t)
      ensures !ok ==> Owned(t) == {} && offset == old(offset) && depth == old(depth)
      ensures ok ==> At(r.rest) && depth == old(depth) - 1
      ensures ok ==> ItemOf(t) == BLANK.(kind := kind, name := CharsOf(name), kids := r.value)
    {
      hide Foots, Separates, Shapes, Shape, Separate, Forward, Backward, Backlinks, ItemsOf;
      if ok {
        Aside(this, ts);
        depth, offset := depth - 1, offset + 1;
        FinishList(head, tail, ts);
        t := Adopt(item, kind, head, name, ts);
      } else {
        if head != null {
          ShapesAreLoose(ts);
          Delete(mem, head, ts);
        } else {
          NoFoots();
        }
        t := Tree(item, item.kind, item.num, NoStr, name, []);
        LeafShape(t);
      }
    }

    /** `parse_array` from the opening bracket to its labels. */
    method ReadArrayList(lib: Lib, ghost s: seq<byte>) returns (ok: bool, head: Node?, tail: Node?, ghost ts: seq<Tree>)
      requires At(s) && s != [] && s[0] == LBRACKET && 0 < depth <= NESTING_LIMIT
      modifies this`offset, this`depth, mem
      ensures Listed(ok, ArrayList(lib, s, old(depth) - 1), head, tail, ts) && (ok ==> depth == old(depth))
      ensures depth <= NESTING_LIMIT
      decreases |s|, 2
    {
      hide ParseElements, SkipWhitespace, Growing, Owns, ItemsOf, At, Left, Before;
      NoList(mem);
      head, tail, ts := null, null, [];
      ghost var first, start := SkipWhitespace(s[1..]), offset;
      Where(s);
      SkipsToEnd(s[1..]);
      Advance(s);
      Peek(first);
      if CanAccess(0) && content[offset] == RBRACKET {
        ok := true;
        return;
      }
      ok := CanAccess(0);
      ghost var here := StepBack(first);
      if ok {
        ok, head, tail, ts := ReadElements(lib, here);
      } else {
        StepsToLast(here, s, start);
      }
    }

    lemma Where(s: seq<byte>)
      requires At(s)
      ensures offset <= |content| && content[offset..] == s && offset == |content| - |s|
    {}

    lemma StepsToLast(here: seq<byte>, s: seq<byte>, start: nat)
      requires At(here) && |here| == 1
      requires |s| == 1 && start <= |content| && content[start..] == s
      ensures here == s
    {}

    /** The loop of `parse_array`, from the byte in front of an element. */
    method ReadElements(lib: Lib, ghost here: seq<byte>) returns (ok: bool, head: Node?, tail: Node?, ghost ts: seq<Tree>)
      requires At(here) && here != [] && depth <= NESTING_LIMIT
      modifies this`offset, this`depth, mem
      ensures Listed(ok, ParseElements(lib, Rest(here), old(depth), []), head, tail, ts) && (ok ==> depth == old(depth))
      ensures depth <= NESTING_LIMIT
      decreases |here|, 1
    {
      hide ParseElements, ParseValue, SkipWhitespace, Growing, ItemsOf, Foots, At, Left, Before;
      NoList(mem);
      head, tail, ts := null, null, [];
      ghost var base, at := mem.live, here;
      ghost var r := ParseElements(lib, Rest(here), depth, []);
      while true
        invariant Growing(head, tail, ts) && Owns(mem, base, ts)
        invariant (head == null ==> tail == null) && (head != null ==> fresh(head)) && (tail != null ==> fresh(tail))
        invariant mem.refusals >= old(mem.refusals) && depth == old(depth)
        invariant At(at) && at != [] && |at| <= |here|
        invariant r == ParseElements(lib, Rest(at), depth, ItemsOf(ts))
        decreases |at|
      {
        ElementsTurn(lib, Rest(at), depth, ItemsOf(ts));
        ok, head, tail, ts, at := ReadElement(lib, head, tail, ts, base, at);
        if !ok {
          assert mem.refusals > old(mem.refusals) || r.Err?;
          assert mem.refusals > old(mem.refusals) || At(r.rest);
          return;
        }
        Peek(at);
        if !(CanAccess(0) && content[offset] == COMMA) {
          break;
        }
      }
      ok := CanAccess(0) && content[offset] == RBRACKET;
      assert r == if ok then Ok(ItemsOf(ts), Rest(at)) else Err(at);
    }

    /** One turn of that loop: a new last node, and the value read into it. */
    method ReadElement(lib: Lib, head: Node?, tail: Node?, ghost ts: seq<Tree>, ghost base: set<object>, ghost here: seq<byte>)
      returns (ok: bool, newHead: Node?, newTail: Node?, ghost more: seq<Tree>, ghost next: seq<byte>)
      requires Growing(head, tail, ts) && Owns(mem, base, ts) && depth <= NESTING_LIMIT
      requires At(here) && here != []
      modifies this`offset, this`depth, mem, if tail == null then {} else {tail}
      ensures Growing(newHead, newTail, more) && Owns(mem, base, more)
      ensures newTail == tail || (newTail != null && fresh(newTail))
      ensures newHead == if head == null then newTail else head
      ensures mem.refusals >= old(mem.refusals)
      ensures var v := ParseValue(lib, SkipWhitespace(Rest(here)), old(depth));
              && (ok ==> v.Ok? && next == SkipWhitespace(v.rest) && ItemsOf(more) == ItemsOf(ts) + [v.value])
              && (!ok ==> mem.refusals > old(mem.refusals) || (v.Err? && At(v.rest)))
      ensures ok ==> depth == old(depth) && At(next) && |next| < |here|
      ensures depth <= NESTING_LIMIT
      decreases |here|, 0
    {
      hide Rest, ParseValue, Shapes, Separates, Separate, Foots, Foot, Shape, LeadsTo, Forward, Backlinks, ItemOf, ItemsOf, SkipWhitespace, At, Left;
      more, next := ts, here;
      newHead, newTail := NewTail(mem, head, tail, ts, base);
      if newTail == null {
        ok, newTail := false, tail;
        return;
      }
      ghost var s := SkipWhitespace(Rest(here));
      SkipsToEnd(Rest(here));
      ghost var v := ParseValue(lib, s, depth);
      Nameless(lib, s, depth);
      AdvanceBeside(newTail, ts, here);
      ghost var t;
      assert Block(NoStr) == {};
      ok, t := ReadTail(lib, newTail, NoStr, ts, base, s);
      Snoc(ts, t);
      more := ts + [t];
      if ok {
        next := SkipWhitespace(v.rest);
        SkipBehind(newHead, newTail, more, v.rest);
      }
    }

    method AdvanceBeside(node: Node, ghost ts: seq<Tree>, ghost here: seq<byte>)
      requires At(here) && here != []
      requires Shapes(ts) && LeadsTo(ts, node) && Foots(ts) <= mem.live && node in mem.live
      modifies this`offset
      ensures At(SkipWhitespace(Rest(here))) && Shapes(ts) && LeadsTo(ts, node)
    {
      hide *;
      TopsOwned(ts);
      Aside(this, ts);
      Advance(here);
    }

    method SkipBehind(ghost head: Node?, ghost tail: Node?, ghost ts: seq<Tree>, ghost s: seq<byte>)
      requires At(s) && Growing(head, tail, ts) && Foots(ts) <= mem.live
      modifies this`offset
      ensures At(SkipWhitespace(s)) && Growing(head, tail, ts)
    {
      hide *;
      Aside(this, ts);
      BufferSkipWhitespace(s);
    }

    /** Reads a value into the last node of a list. */
    method ReadTail(lib: Lib, node: Node, ghost name: Str, ghost ts: seq<Tree>, ghost base: set<object>, ghost s: seq<byte>)
      returns (ok: bool, ghost t: Tree)
      requires At(s) && Receives(node, name) && depth <= NESTING_LIMIT
      requires Shapes(ts) && Separates(ts) && Plains(ts) && LeadsTo(ts, node)
      requires mem.live == base + Foots(ts) + {node} + Block(name)
      requires base !! Foots(ts) && {node} + Block(name) !! base + Foots(ts)
      modifies this`offset, this`depth, mem, node`kind, node`num, node`text, node`child
      ensures t.node == node && Growing(Head(ts + [t]), node, ts + [t]) && Owns(mem, base, ts + [t])
      ensures mem.refusals >= old(mem.refusals)
      ensures var r := ParseValue(lib, s, old(depth));
              && (ok ==> r.Ok? && At(r.rest) && depth == old(depth) && ItemOf(t) == r.value.(name := CharsOf(name)))
              && (!ok ==> mem.refusals > old(mem.refusals) || (r.Err? && At(r.rest)))
      ensures depth <= NESTING_LIMIT
      decreases |s|, 6
    {
      hide ParseValue, Shapes, Separates, Separate, Foots, Foot, Shape, LeadsTo, Forward, Backlinks, ItemOf, Receives, Growing, Owned, At, Left;
      ok, t := ReadBeside(lib, node, name, ts, s);
      FootOwned(t);
      Grown(mem, base, ts, t);
    }

    /** The list in front stays as it is. */
    method ReadBeside(lib: Lib, node: Node, ghost name: Str, ghost ts: seq<Tree>, ghost s: seq<byte>)
      returns (ok: bool, ghost t: Tree)
      requires At(s) && Receives(node, name) && depth <= NESTING_LIMIT
      requires Shapes(ts) && LeadsTo(ts, node) && node !in Foots(ts) && Foots(ts) <= mem.live
      modifies this`offset, this`depth, mem, node`kind, node`num, node`text, node`child
      ensures Parsed(ok, ParseValue(lib, s, old(depth)), node, t, name)
      ensures Shapes(ts) && LeadsTo(ts, node)
      ensures depth <= NESTING_LIMIT
      decreases |s|, 5
    {
      hide *;
      TopsOwned(ts);
      Aside(mem, ts);
      Aside(this, ts);
      ok, t := ReadValue(lib, node, name, s);
    }

    /** `parse_object`. */
    method ReadObject(lib: Lib, item: Node, ghost name: Str, ghost s: seq<byte>) returns (ok: bool, ghost t: Tree)
      requires At(s) && s != [] && s[0] == LBRACE && Receives(item, name) && depth <= NESTING_LIMIT
      modifies this`offset, this`depth, mem, item`kind, item`num, item`text, item`child
      ensures Parsed(ok, ParseObject(lib, s, old(depth)), item, t, name)
      ensures depth <= NESTING_LIMIT
      decreases |s|, 3
    {
      hide ParseObject, ObjectList, Foots, Separates, Shapes, Shape, Separate, Growing, ItemOf, ItemsOf, At, Left, Before;
      ObjectIsList(lib, s, depth);
      if depth >= NESTING_LIMIT {
        ok := false;
        t := Nothing(item, name, s);
        return;
      }
      depth := depth + 1;
      var head, tail;
      ghost var ts;
      ok, head, tail, ts := ReadObjectList(lib, s);
      t := Conclude(ok, ObjectList(lib, s, old(depth)), item, Object, head, tail, name, ts, old(mem.live));
    }

    /** `parse_object` from the opening brace to its labels. */
    method ReadObjectList(lib: Lib, ghost s: seq<byte>) returns (ok: bool, head: Node?, tail: Node?, ghost ts: seq<Tree>)
      requires At(s) && s != [] && s[0] == LBRACE && 0 < depth <= NESTING_LIMIT
      modifies this`offset, this`depth, mem
      ensures Listed(ok, ObjectList(lib, s, old(depth) - 1), head, tail, ts) && (ok ==> depth == old(depth))
      ensures depth <= NESTING_LIMIT
      decreases |s|, 2
    {
      hide ParseMembers, SkipWhitespace, Growing, Owns, ItemsOf, At, Left, Before;
      NoList(mem);
      head, tail, ts := null, null, [];
      ghost var first, start := SkipWhitespace(s[1..]), offset;
      Where(s);
      SkipsToEnd(s[1..]);
      Advance(s);
      Peek(first);
      if CanAccess(0) && content[offset] == RBRACE {
        ok := true;
        return;
      }
      ok := CanAccess(0);
      ghost var here := StepBack(first);
      if ok {
        ok, head, tail, ts := ReadMembers(lib, here);
      } else {
        StepsToLast(here, s, start);
      }
    }

    /** The loop of `parse_object`, from the byte in front of a member. */
    method ReadMembers(lib: Lib, ghost here: seq<byte>) returns (ok: bool, head: Node?, tail: Node?, ghost ts: seq<Tree>)
      requires At(here) && here != [] && depth <= NESTING_LIMIT
      modifies this`offset, this`depth, mem
      ensures Listed(ok, MembersFrom(lib, here, old(depth), []), head, tail, ts) && (ok ==> depth == old(depth))
      ensures depth <= NESTING_LIMIT
      decreases |here|, 1
    {
      hide MembersFrom, MemberFrom, SkipWhitespace, Growing, ItemsOf, Foots, At, Left, Before;
      NoList(mem);
      head, tail, ts := null, null, [];
      ghost var base, at := mem.live, here;
      ghost var r := MembersFrom(lib, here, depth, []);
      while true
        invariant Growing(head, tail, ts) && Owns(mem, base, ts)
        invariant (head == null ==> tail == null) && (head != null ==> fresh(head)) && (tail != null ==> fresh(tail))
        invariant mem.refusals >= old(mem.refusals) && depth == old(depth)
        invariant At(at) && at != [] && |at| <= |here|
        invariant r == MembersFrom(lib, at, depth, ItemsOf(ts))
        decreases |at|
      {
        MembersTurn(lib, at, depth, ItemsOf(ts));
        ok, head, tail, ts, at := ReadMember(lib, head, tail, ts, base, at);
        if !ok {
          assert mem.refusals > old(mem.refusals) || r.Err?;
          assert mem.refusals > old(mem.refusals) || At(r.rest);
          return;
        }
        Peek(at);
        if !(CanAccess(0) && content[offset] == COMMA) {
          break;
        }
      }
      ok := CanAccess(0) && content[offset] == RBRACE;
      assert r == if ok then Ok(ItemsOf(ts), Rest(at)) else Err(at);
    }

    /** One turn of that loop: a new last node, its key, and the value read into it. */
    method ReadMember(lib: Lib, head: Node?, tail: Node?, ghost ts: seq<Tree>, ghost base: set<object>, ghost here: seq<byte>)
      returns (ok: bool, newHead: Node?, newTail: Node?, ghost more: seq<Tree>, ghost next: seq<byte>)
      requires Growing(head, tail, ts) && Owns(mem, base, ts) && depth <= NESTING_LIMIT
      requires At(here) && here != []
      modifies this`offset, this`depth, mem, if tail == null then {} else {tail}
      ensures Growing(newHead, newTail, more) && Owns(mem, base, more)
      ensures newTail == tail || (newTail != null && fresh(newTail))
      ensures newHead == if head == null then newTail else head
      ensures mem.refusals >= old(mem.refusals)
      ensures var v := MemberFrom(lib, here, old(depth));
              && (ok ==> v.Ok? && next == SkipWhitespace(v.rest) && ItemsOf(more) == ItemsOf(ts) + [v.value])
              && (!ok ==> mem.refusals > old(mem.refusals) || (v.Err? && At(v.rest)))
      ensures ok ==> depth == old(depth) && At(next) && |next| < |here|
      ensures depth <= NESTING_LIMIT
      decreases |here|, 0, 1
    {
      hide Rest, MemberFrom, Shapes, Separates, Foots, Foot, Shape, LeadsTo, Forward, Backlinks, ItemsOf, SkipWhitespace, At, Left;
      more, next := ts, here;
      newHead, newTail := NewTail(mem, head, tail, ts, base);
      if newTail == null {
        ok, newTail := false, tail;
        return;
      }
      ok, more, next := ReadMemberInto(lib, newTail, ts, base, here);
    }

    /** The rest of the turn: the key and the value, into the new node. */
    method ReadMemberInto(lib: Lib, node: Node, ghost ts: seq<Tree>, ghost base: set<object>, ghost here: seq<byte>)
      returns (ok: bool, ghost more: seq<Tree>, ghost next: seq<byte>)
      requires At(here) && here != [] && Receives(node, NoStr) && depth <= NESTING_LIMIT
      requires Shapes(ts) && Separates(ts) && Plains(ts) && LeadsTo(ts, node)
      requires mem.live == base + Foots(ts) + {node} && base !! Foots(ts) && node !in base + Foots(ts)
      modifies this`offset, this`depth, mem, node`kind, node`num, node`text, node`name, node`child
      ensures Growing(Head(more), node, more) && Owns(mem, base, more) && Head(more) == (if ts == [] then node else Head(ts))
      ensures mem.refusals >= old(mem.refusals)
      ensures var v := MemberFrom(lib, here, old(depth));
              && (ok ==> v.Ok? && next == SkipWhitespace(v.rest) && ItemsOf(more) == ItemsOf(ts) + [v.value])
              && (!ok ==> mem.refusals > old(mem.refusals) || (v.Err? && At(v.rest)))
      ensures ok ==> depth == old(depth) && At(next) && |next| < |here|
      ensures depth <= NESTING_LIMIT
      decreases |here|, 0, 0
    {
      hide Rest, ParseValue, ParseKey, MemberFrom, Shapes, Separates, Separate, Foots, Foot, Shape, LeadsTo, Forward, Backlinks,
        ItemOf, ItemsOf, SkipWhitespace, At, Left, Growing;
      MemberIs(lib, here, depth);
      next := here;
      ghost var m := MemberFrom(lib, here, depth);
      ghost var t;
      ghost var name := NoStr;
      assert Block(NoStr) == {};
      PeekNext(here);
      ok := CanAccess(1);
      if ok {
        ok, name := ReadKeyBeside(node, ts, here);
      }
      if !ok {
        t := LeafGrown(mem, base, ts, node, name);
        more := ts + [t];
        assert mem.refusals > old(mem.refusals) || m.Err?;
        assert mem.refusals > old(mem.refusals) || At(m.rest);
        return;
      }
      ghost var s := SkipWhitespace(Rest(ParseKey(Rest(here)).rest));
      ghost var v := ParseValue(lib, s, depth);
      ok, t := ReadTail(lib, node, name, ts, base, s);
      Snoc(ts, t);
      more := ts + [t];
      if ok {
        next := SkipWhitespace(v.rest);
        SkipsToEnd(v.rest);
        SkipBehind(Head(more), node, more, v.rest);
      } else {
        assert mem.refusals > old(mem.refusals) || m.Err?;
        assert mem.refusals > old(mem.refusals) || At(m.rest);
      }
    }

    lemma PeekNext(here: seq<byte>)
      requires At(here) && here != []
      ensures CanAccess(1) == (Rest(here) != [])
    {}

    /** A key read into a node that has neither key nor value yet, and the colon behind it. */
    method ReadKey(node: Node, ghost here: seq<byte>) returns (ok: bool, ghost name: Str)
      requires At(here) && here != [] && Rest(here) != []
      requires Receives(node, NoStr)
      modifies this`offset, mem, node`kind, node`text, node`name
      ensures Vacant(node, name) && Block(name) !! old(mem.live) && mem.live == old(mem.live) + Block(name)
      ensures mem.refusals >= old(mem.refusals)
      ensures var k := ParseKey(Rest(here));
              && (ok ==> k.Ok? && CharsOf(name) == k.value && At(SkipWhitespace(Rest(k.rest))))
              && (!ok ==> mem.refusals > old(mem.refusals) || (k.Err? && At(k.rest)))
    {
      hide SkipWhitespace, ParseString;
      ghost var s := SkipWhitespace(Rest(here));
      SkipsToEnd(Rest(here));
      Advance(here);
      ok, name := ReadString(node, s);
      if !ok {
        return;
      }
      BufferSkipWhitespace(ParseString(s).rest);
      node.name := node.text;
      node.text := null;
      ok := CanAccess(0) && content[offset] == COLON;
      if ok {
        Advance(SkipWhitespace(ParseString(s).rest));
      }
    }

    method ReadKeyBeside(node: Node, ghost ts: seq<Tree>, ghost here: seq<byte>) returns (ok: bool, ghost name: Str)
      requires At(here) && here != [] && Rest(here) != []
      requires Receives(node, NoStr)
      requires Shapes(ts) && LeadsTo(ts, node) && node !in Foots(ts) && Foots(ts) <= mem.live
      modifies this`offset, mem, node`kind, node`text, node`name
      ensures Vacant(node, name) && Block(name) !! old(mem.live) && mem.live == old(mem.live) + Block(name)
      ensures mem.refusals >= old(mem.refusals)
      ensures var k := ParseKey(Rest(here));
              && (ok ==> k.Ok? && CharsOf(name) == k.value && At(SkipWhitespace(Rest(k.rest))))
              && (!ok ==> mem.refusals > old(mem.refusals) || (k.Err? && At(k.rest)))
      ensures Shapes(ts) && LeadsTo(ts, node)
    {
      hide *;
      TopsOwned(ts);
      Aside(mem, ts);
      Aside(this, ts);
      ok, name := ReadKey(node, here);
    }

    /** `skip_utf8_bom`, at the start of the input. */
    method SkipByteOrderMark()
      requires offset == 0
      modifies this`offset
      ensures At(SkipBom(content))
    {
      if CanAccess(4) && content[..3] == BOM {
        assert BOM <= content;
        offset := offset + 3;
      }
    }

    /** The middle of `cJSON_ParseWithLengthOpts`: everything that reads the input. */
    method ReadText(lib: Lib, root: Node, requireNull: bool) returns (ok: bool, ghost t: Tree)
      requires offset == depth == 0 && content != [] && Receives(root, NoStr)
      modifies this`offset, this`depth, mem, root`kind, root`num, root`text, root`child
      ensures Built(root, t, NoStr) && depth <= NESTING_LIMIT
      ensures var r := ParseText(lib, content, requireNull);
              && (ok ==> r.Ok? && At(r.rest) && ItemOf(t) == r.value)
              && (!ok ==> mem.refusals > old(mem.refusals) || (r.Err? && At(r.rest)))
    {
      hide ParseValue, SkipWhitespace, ItemOf, Shape, Separate, Owned, Foots, Inner;
      SkipByteOrderMark();
      BufferSkipWhitespace(SkipBom(content));
      ghost var s := SkipWhitespace(SkipBom(content));
      Nameless(lib, s, 0);
      ok, t := ReadValue(lib, root, NoStr, s);
      if ok && requireNull {
        ghost var end := SkipWhitespace(ParseValue(lib, s, 0).rest);
        FootOwned(t);
        SkipKeeps(t, ParseValue(lib, s, 0).rest);
        Peek(end);
        ok := CanAccess(0) && content[offset] == NUL;
      }
    }

    /** White space is skipped with the tree in place. */
    method SkipKeeps(ghost t: Tree, ghost s: seq<byte>)
      requires At(s) && Shape(t) && Foot(t) <= mem.live
      modifies this`offset
      ensures At(SkipWhitespace(s)) && Shape(t)
    {
      hide *;
      AsideTree(this, t);
      BufferSkipWhitespace(s);
    }
  }

  /** What an array or object is, given its list. */
  function Wrap(kind: Kind, r: Parse<seq<Item>>): Parse<Item> {
    match r
    case Ok(kids, rest) => Ok(BLANK.(kind := kind, kids := kids), rest)
    case Err(rest) => Err(rest)
  }

  function ArrayList(lib: Lib, s: seq<byte>, depth: nat): Parse<seq<Item>>
    requires s != []
  {
    var first := SkipWhitespace(s[1..]);
    if first == [] then Err(s)
    else if first[0] == RBRACKET then Ok([], first[1..])
    else ParseElements(lib, first, depth + 1, [])
  }

  lemma ArrayIsList(lib: Lib, s: seq<byte>, depth: nat)
    requires s != [] && s[0] == LBRACKET
    ensures ParseArray(lib, s, depth) == if depth >= NESTING_LIMIT then Err(s) else Wrap(Array, ArrayList(lib, s, depth))
  {
    hide ParseElements, SkipWhitespace;
  }

  lemma ElementsTurn(lib: Lib, s: seq<byte>, depth: nat, done: seq<Item>)
    ensures var v := ParseValue(lib, SkipWhitespace(s), depth);
            var next := SkipWhitespace(v.rest);
            ParseElements(lib, s, depth, done) ==
            if v.Err? then Err(v.rest)
            else if next != [] && next[0] == COMMA then ParseElements(lib, next[1..], depth, done + [v.value])
            else if next != [] && next[0] == RBRACKET then Ok(done + [v.value], next[1..])
            else Err(next)
  {
    hide ParseValue, SkipWhitespace;
  }

  /** A key is only added by the caller. */
  lemma Nameless(lib: Lib, s: seq<byte>, depth: nat)
    ensures ParseValue(lib, s, depth).Ok? ==> ParseValue(lib, s, depth).value.name == NoString
  {
    hide ParseString, ParseArray, ParseObject, ParseNumber;
    if s != [] && s[0] == LBRACKET { NamelessArray(lib, s, depth); }
    if s != [] && s[0] == LBRACE { NamelessObject(lib, s, depth); }
    NamelessNumber(lib, s);
  }

  lemma NamelessNumber(lib: Lib, s: seq<byte>)
    ensures ParseNumber(lib, s).Ok? ==> ParseNumber(lib, s).value.name == NoString
  {}

  lemma NamelessArray(lib: Lib, s: seq<byte>, depth: nat)
    requires s != [] && s[0] == LBRACKET
    ensures ParseArray(lib, s, depth).Ok? ==> ParseArray(lib, s, depth).value.name == NoString
  {
    hide ParseElements, SkipWhitespace;
  }

  lemma NamelessObject(lib: Lib, s: seq<byte>, depth: nat)
    requires s != [] && s[0] == LBRACE
    ensures ParseObject(lib, s, depth).Ok? ==> ParseObject(lib, s, depth).value.name == NoString
  {
    hide ParseMembers, SkipWhitespace;
  }

  lemma StringAt(content: seq<byte>, k: nat)
    requires k < |content|
    ensures var c := FindClose(content[k + 1..]);
            ParseString(content[k..]) ==
            if content[k] != QUOTE || c.Unclosed? then Err(content[k + 1..])
            else match Decode(content[k + 1..k + 1 + c.at])
                 case Bad(at) => Err(content[k + 1 + at..])
                 case Good(bytes) => Ok(Chars(BeforeNul(bytes)), content[k + 1 + c.at + 1..])
  {
    hide FindClose, Decode, BeforeNul;
    DropDrop(content, k, 1);
    var c := FindClose(content[k + 1..]);
    if c.Close? {
      DropDrop(content, k + 1, c.at);
      match Decode(content[k + 1..k + 1 + c.at]) {
        case Bad(at) => DropDrop(content, k + 1, at);
        case Good(_) => DropDrop(content, k + 1, c.at + 1);
      }
    }
  }

  lemma StopsAtNul(block: array<byte>, bytes: seq<byte>)
    requires |bytes| < block.Length && block[..|bytes|] == bytes && block[|bytes|] == NUL
    ensures Written(Str(block, BeforeNul(bytes)))
  {}

  function ObjectList(lib: Lib, s: seq<byte>, depth: nat): Parse<seq<Item>>
    requires s != []
  {
    var first := SkipWhitespace(s[1..]);
    if first == [] then Err(s)
    else if first[0] == RBRACE then Ok([], first[1..])
    else ParseMembers(lib, first, depth + 1, [])
  }

  lemma ObjectIsList(lib: Lib, s: seq<byte>, depth: nat)
    requires s != [] && s[0] == LBRACE
    ensures ParseObject(lib, s, depth) == if depth >= NESTING_LIMIT then Err(s) else Wrap(Object, ObjectList(lib, s, depth))
  {
    hide ParseMembers, SkipWhitespace;
  }

  /** The members behind the brace or comma in front of `here`. */
  function MembersFrom(lib: Lib, here: seq<byte>, depth: nat, done: seq<Item>): Parse<seq<Item>>
    requires here != []
  {
    if Rest(here) == [] then Err(here) else ParseMembers(lib, Rest(here), depth, done)
  }

  function MemberFrom(lib: Lib, here: seq<byte>, depth: nat): Parse<Item>
    requires here != []
  {
    if Rest(here) == [] then Err(here) else ParseMember(lib, Rest(here), depth)
  }

  lemma MembersTurn(lib: Lib, here: seq<byte>, depth: nat, done: seq<Item>)
    requires here != []
    ensures var v := MemberFrom(lib, here, depth);
            var next := SkipWhitespace(v.rest);
            MembersFrom(lib, here, depth, done) ==
            if v.Err? then Err(v.rest)
            else if next != [] && next[0] == COMMA then MembersFrom(lib, next, depth, done + [v.value])
            else if next != [] && next[0] == RBRACE then Ok(done + [v.value], next[1..])
            else Err(next)
  {
    hide ParseMember, SkipWhitespace;
  }

  /** A key up to the colon. */
  function ParseKey(s: seq<byte>): (k: Parse<CString>)
    requires s != []
    ensures k.Ok? ==> k.rest != [] && |k.rest| < |s|
  {
    var name := ParseString(SkipWhitespace(s));
    var colon := SkipWhitespace(name.rest);
    if name.Err? then Err(name.rest)
    else if colon == [] || colon[0] != COLON then Err(colon)
    else Ok(name.value, colon)
  }

  lemma MemberIs(lib: Lib, here: seq<byte>, depth: nat)
    requires here != []
    ensures Rest(here) == [] ==> MemberFrom(lib, here, depth) == Err(here)
    ensures Rest(here) != [] ==>
              var k := ParseKey(Rest(here));
              MemberFrom(lib, here, depth) ==
              if k.Err? then Err(k.rest)
              else
                var v := ParseValue(lib, SkipWhitespace(Rest(k.rest)), depth);
                if v.Ok? then Ok(v.value.(name := k.value), v.rest) else Err(v.rest)
    ensures Rest(here) != [] && ParseKey(Rest(here)).Ok? ==>
              |SkipWhitespace(Rest(ParseKey(Rest(here)).rest))| < |here|
  {
    hide ParseString, SkipWhitespace, ParseValue;
    if Rest(here) != [] && ParseKey(Rest(here)).Ok? {
      SkipsToEnd(Rest(ParseKey(Rest(here)).rest));
    }
  }

  // ---- one step of each loop

  lemma SkipsToEnd(s: seq<byte>)
    ensures SkipWhitespace(s) == [] <==> s == []
    ensures |SkipWhitespace(s)| <= |s|
  {}

  lemma NothingToSkip()
    ensures SkipWhitespace([]) == []
  {}

  lemma SkipStep(content: seq<byte>, k: nat)
    requires k < |content|
    ensures content[k] > SPACE || k + 1 == |content| ==> SkipWhitespace(content[k..]) == content[k..]
    ensures content[k] <= SPACE && k + 1 < |content| ==> SkipWhitespace(content[k..]) == SkipWhitespace(content[k + 1..])
  {
    assert content[k..][1..] == content[k + 1..];
  }

  lemma CloseStep(content: seq<byte>, k: nat)
    requires k < |content| && content[k] != QUOTE
    ensures content[k] != BACKSLASH ==> FindClose(content[k..]) == Behind(1, 0, FindClose(content[k + 1..]))
    ensures content[k] == BACKSLASH ==>
              FindClose(content[k..]) ==
              if k + 1 == |content| then Unclosed else Behind(2, 1, FindClose(content[k + 2..]))
  {
    DropDrop(content, k, 1);
    if k + 1 < |content| { DropDrop(content, k, 2); }
  }

  lemma CloseFound(content: seq<byte>, k: nat)
    requires k <= |content| && (k < |content| ==> content[k] == QUOTE)
    ensures FindClose(content[k..]) == if k < |content| then Close(0, 0) else Unclosed
  {}

  lemma SpanStep(content: seq<byte>, k: nat)
    requires k <= |content|
    ensures k < |content| && NumberByte(content[k]) ==>
              NumberSpan(content[k..]) == [content[k]] + NumberSpan(content[k + 1..])
    ensures k == |content| || !NumberByte(content[k]) ==> NumberSpan(content[k..]) == []
  {
    if k < |content| {
      assert content[k..][1..] == content[k + 1..];
    }
  }
}
