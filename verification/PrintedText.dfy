/**
 The text that the printer produces for an item, compact or formatted.
 */
module PrintedText {
  import opened Bytes
  import opened Seqs
  import opened Items
  import opened Numbers
  import opened StringCodec

  function Tabs(n: nat): (s: seq<byte>)
    ensures |s| == n && forall i :: 0 <= i < n ==> s[i] == TAB
  {
    seq(n, i => TAB)
  }

  function StringText(x: CString): seq<byte> {
    if x.NoString? then Quoted([]) else Quoted(x.chars)
  }

  /** The printer accepts the item at this nesting depth. */
  predicate Prints(lib: Lib, it: Item, depth: nat) {
    match it.kind
    case Invalid => false
    case False | True | Null | String => true
    case Number => |NumberText(lib, it.num)| < NUMBER_BUFFER
    case Raw => it.text.Chars?
    case Array | Object => depth < NESTING_LIMIT && PrintsAll(lib, it.kids, depth + 1)
  }

  predicate PrintsAll(lib: Lib, kids: seq<Item>, depth: nat) {
    kids == [] || (Prints(lib, kids[0], depth) && PrintsAll(lib, kids[1..], depth))
  }

  function When(c: bool, s: seq<byte>): seq<byte> {
    if c then s else []
  }

  /** What the printer writes for the item, in front of `rest`. */
  function Print(lib: Lib, it: Item, depth: nat, fmt: bool, rest: seq<byte>): seq<byte>
    decreases it, 0
  {
    match it.kind
    case Invalid => rest
    case False => FALSE_TEXT + rest
    case True => TRUE_TEXT + rest
    case Null => NULL_TEXT + rest
    case Number => NumberText(lib, it.num) + rest
    case String => StringText(it.text) + rest
    case Raw => (if it.text.Chars? then it.text.chars else []) + rest
    case Array => [LBRACKET] + PrintElements(lib, it.kids, depth + 1, fmt, [RBRACKET] + rest)
    case Object =>
      [LBRACE] + (When(fmt, [NEWLINE])
                  + PrintMembers(lib, it.kids, depth + 1, fmt, When(fmt, Tabs(depth)) + ([RBRACE] + rest)))
  }

  /** Elements with the commas between them. */
  function PrintElements(lib: Lib, kids: seq<Item>, depth: nat, fmt: bool, rest: seq<byte>): seq<byte>
    decreases kids, 0
  {
    if kids == [] then rest
    else Print(lib, kids[0], depth, fmt, MoreElements(lib, kids[1..], depth, fmt, rest))
  }

  /** What follows an element. */
  function MoreElements(lib: Lib, kids: seq<Item>, depth: nat, fmt: bool, rest: seq<byte>): seq<byte>
    decreases kids, 1
  {
    if kids == [] then rest
    else [COMMA] + (When(fmt, [SPACE]) + PrintElements(lib, kids, depth, fmt, rest))
  }

  /** Members, each on its own line when formatted. */
  function PrintMembers(lib: Lib, kids: seq<Item>, depth: nat, fmt: bool, rest: seq<byte>): seq<byte>
    decreases kids, 0
  {
    if kids == [] then rest
    else When(fmt, Tabs(depth)) + PrintMember(lib, kids[0], depth, fmt, MoreMembers(lib, kids[1..], depth, fmt, rest))
  }

  function PrintMember(lib: Lib, kid: Item, depth: nat, fmt: bool, rest: seq<byte>): seq<byte>
    decreases kid, 1
  {
    StringText(kid.name) + ([COLON] + (When(fmt, [TAB]) + Print(lib, kid, depth, fmt, rest)))
  }

  /** What follows the value of a member. */
  function MoreMembers(lib: Lib, kids: seq<Item>, depth: nat, fmt: bool, rest: seq<byte>): seq<byte>
    decreases kids, 1
  {
    When(kids != [], [COMMA]) + (When(fmt, [NEWLINE]) + PrintMembers(lib, kids, depth, fmt, rest))
  }

  /** The whole text of an item. */
  function Text(lib: Lib, it: Item, depth: nat, fmt: bool): seq<byte> {
    Print(lib, it, depth, fmt, [])
  }

  /** An object's text, with the members in one piece. */
  lemma PrintedObject(lib: Lib, it: Item, depth: nat, fmt: bool, rest: seq<byte>)
    requires it.kind == Object
    ensures Print(lib, it, depth, fmt, rest)
         == [LBRACE] + (When(fmt, [NEWLINE]) + PrintMembers(lib, it.kids, depth + 1, fmt, When(fmt, Tabs(depth)) + ([RBRACE] + rest)))
  {
    hide PrintMembers;
  }

  // ---- `rest` is only carried along

  lemma {:induction false} PrintRest(lib: Lib, it: Item, depth: nat, fmt: bool, a: seq<byte>, b: seq<byte>)
    ensures Print(lib, it, depth, fmt, a + b) == Print(lib, it, depth, fmt, a) + b
    decreases it, 0
  {
    hide StringText, NumberText, Tabs;
    match it.kind {
      case Invalid =>
      case False => Assoc(FALSE_TEXT, a, b);
      case True => Assoc(TRUE_TEXT, a, b);
      case Null => Assoc(NULL_TEXT, a, b);
      case Number => Assoc(NumberText(lib, it.num), a, b);
      case String => Assoc(StringText(it.text), a, b);
      case Raw => Assoc(if it.text.Chars? then it.text.chars else [], a, b);
      case Array =>
        var close := [RBRACKET] + a;
        Assoc([RBRACKET], a, b);
        PrintElementsRest(lib, it.kids, depth + 1, fmt, close, b);
        Assoc([LBRACKET], PrintElements(lib, it.kids, depth + 1, fmt, close), b);
      case Object =>
        var tabs, nl := When(fmt, Tabs(depth)), When(fmt, [NEWLINE]);
        var close := tabs + ([RBRACE] + a);
        Assoc([RBRACE], a, b);
        Assoc(tabs, [RBRACE] + a, b);
        PrintMembersRest(lib, it.kids, depth + 1, fmt, close, b);
        var members := PrintMembers(lib, it.kids, depth + 1, fmt, close);
        Assoc(nl, members, b);
        Assoc([LBRACE], nl + members, b);
    }
  }

  lemma {:induction false} PrintElementsRest(lib: Lib, kids: seq<Item>, depth: nat, fmt: bool, a: seq<byte>, b: seq<byte>)
    ensures PrintElements(lib, kids, depth, fmt, a + b) == PrintElements(lib, kids, depth, fmt, a) + b
    decreases kids, 0
  {
    hide Print;
    if kids != [] {
      MoreElementsRest(lib, kids[1..], depth, fmt, a, b);
      PrintRest(lib, kids[0], depth, fmt, MoreElements(lib, kids[1..], depth, fmt, a), b);
    }
  }

  lemma {:induction false} MoreElementsRest(lib: Lib, kids: seq<Item>, depth: nat, fmt: bool, a: seq<byte>, b: seq<byte>)
    ensures MoreElements(lib, kids, depth, fmt, a + b) == MoreElements(lib, kids, depth, fmt, a) + b
    decreases kids, 1
  {
    hide PrintElements;
    if kids != [] {
      PrintElementsRest(lib, kids, depth, fmt, a, b);
      var elements := PrintElements(lib, kids, depth, fmt, a);
      Assoc(When(fmt, [SPACE]), elements, b);
      Assoc([COMMA], When(fmt, [SPACE]) + elements, b);
    }
  }

  lemma {:induction false} PrintMembersRest(lib: Lib, kids: seq<Item>, depth: nat, fmt: bool, a: seq<byte>, b: seq<byte>)
    ensures PrintMembers(lib, kids, depth, fmt, a + b) == PrintMembers(lib, kids, depth, fmt, a) + b
    decreases kids, 0
  {
    hide PrintMember, Tabs;
    if kids != [] {
      MoreMembersRest(lib, kids[1..], depth, fmt, a, b);
      var more := MoreMembers(lib, kids[1..], depth, fmt, a);
      PrintMemberRest(lib, kids[0], depth, fmt, more, b);
      Assoc(When(fmt, Tabs(depth)), PrintMember(lib, kids[0], depth, fmt, more), b);
    }
  }

  lemma {:induction false} PrintMemberRest(lib: Lib, kid: Item, depth: nat, fmt: bool, a: seq<byte>, b: seq<byte>)
    ensures PrintMember(lib, kid, depth, fmt, a + b) == PrintMember(lib, kid, depth, fmt, a) + b
    decreases kid, 1
  {
    hide Print, StringText;
    PrintRest(lib, kid, depth, fmt, a, b);
    var tab, value := When(fmt, [TAB]), Print(lib, kid, depth, fmt, a);
    Assoc(tab, value, b);
    Assoc([COLON], tab + value, b);
    Assoc(StringText(kid.name), [COLON] + (tab + value), b);
  }

  lemma {:induction false} MoreMembersRest(lib: Lib, kids: seq<Item>, depth: nat, fmt: bool, a: seq<byte>, b: seq<byte>)
    ensures MoreMembers(lib, kids, depth, fmt, a + b) == MoreMembers(lib, kids, depth, fmt, a) + b
    decreases kids, 1
  {
    hide PrintMembers;
    PrintMembersRest(lib, kids, depth, fmt, a, b);
    var members := PrintMembers(lib, kids, depth, fmt, a);
    Assoc(When(fmt, [NEWLINE]), members, b);
    Assoc(When(kids != [], [COMMA]), When(fmt, [NEWLINE]) + members, b);
  }

  lemma TextRest(lib: Lib, it: Item, depth: nat, fmt: bool, rest: seq<byte>)
    ensures Print(lib, it, depth, fmt, rest) == Text(lib, it, depth, fmt) + rest
  {
    PrintRest(lib, it, depth, fmt, [], rest);
    Empty(rest);
  }
}
