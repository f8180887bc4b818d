/**
 Minifying formatted output against compact output. They agree exactly when no
 string ends in a backslash, save for one that only closing brackets follow.
 */
module MinifyPrinted {
  import opened Bytes
  import opened Seqs
  import opened Items
  import opened Numbers
  import opened StringCodec
  import opened Utf
  import opened PrintedText
  import opened Minify
  import opened JsonPrinted
  import opened RoundTrip

  predicate EndsInBackslash(x: CString) {
    x.Chars? && x.chars != [] && x.chars[|x.chars| - 1] == BACKSLASH
  }

  /** No printed string or key ends in a backslash. */
  predicate Tame(it: Item) {
    match it.kind
    case String => !EndsInBackslash(it.text)
    case Array => TameElements(it.kids)
    case Object => TameMembers(it.kids)
    case _ => true
  }

  predicate TameElements(kids: seq<Item>) {
    kids == [] || (Tame(kids[0]) && TameElements(kids[1..]))
  }

  predicate TameMembers(kids: seq<Item>) {
    kids == [] || (!EndsInBackslash(kids[0].name) && Tame(kids[0]) && TameMembers(kids[1..]))
  }

  /** As `Tame`, but the string that ends the text, up to closing brackets, is free. */
  predicate TameToLast(it: Item) {
    match it.kind
    case String => true
    case Array => TameToLastElement(it.kids)
    case _ => Tame(it)
  }

  predicate TameToLastElement(kids: seq<Item>) {
    kids == []
    || (if |kids| == 1 then TameToLast(kids[0]) else Tame(kids[0]) && TameToLastElement(kids[1..]))
  }

  lemma {:induction false} TameIsTameToLast(it: Item)
    requires Tame(it)
    ensures TameToLast(it)
    decreases it, 0
  {
    if it.kind == Array { TameElementsAreTameToLast(it.kids); }
  }

  lemma {:induction false} TameElementsAreTameToLast(kids: seq<Item>)
    requires TameElements(kids)
    ensures TameToLastElement(kids)
    decreases kids, 0
  {
    if |kids| == 1 {
      TameIsTameToLast(kids[0]);
    } else if kids != [] {
      TameElementsAreTameToLast(kids[1..]);
    }
  }

  // ---- how the minifier reads what the printer writes

  lemma {:induction false} DropsBlank(t: seq<byte>, x: seq<byte>)
    requires forall i :: 0 <= i < |t| ==> Blank(t[i])
    ensures Minified(t + x) == Minified(x)
  {
    if t == [] {
      Empty(x);
    } else {
      assert t + x == [t[0]] + (t[1..] + x);
      Cons(t[0], t[1..] + x);
      DropsBlank(t[1..], x);
    }
  }

  /** Inside a string a byte that is no quote, and no backslash before one, is copied. */
  lemma CopiesInString(b: byte, x: seq<byte>)
    requires b != QUOTE
    requires b == BACKSLASH ==> x == [] || x[0] != QUOTE
    ensures InString([b] + x) == [b] + InString(x)
  {
    Cons(b, x);
  }

  /** How the minifier goes on after the closing quote of a printed string. */
  function AfterString(x: CString, rest: seq<byte>): seq<byte> {
    if EndsInBackslash(x) then InString(rest) else Minified(rest)
  }

  lemma {:induction false} ReadsEscaped(x: CChars, rest: seq<byte>)
    ensures InString(Escape(x) + ([QUOTE] + rest)) == Escape(x) + ([QUOTE] + AfterString(Chars(x), rest))
  {
    hide Minified;
    var close := [QUOTE] + rest;
    var end := [QUOTE] + AfterString(Chars(x), rest);
    if x == [] {
      Empty(close);
      Empty(end);
      Cons(QUOTE, rest);
    } else {
      var more := x[1..];
      var tail := Escape(more) + close;
      Assoc(EscapeByte(x[0]), Escape(more), close);
      if more == [] && x[0] == BACKSLASH {
        LoneBackslash(rest);
        assert EscapeByte(x[0]) == [BACKSLASH, BACKSLASH];
        Empty(EscapeByte(x[0]));
      } else {
        ReadsEscaped(more, rest);
        assert EndsInBackslash(Chars(x)) == EndsInBackslash(Chars(more));
        EscapedStart(more, close);
        ReadsEscapedByte(x[0], tail);
        Assoc(EscapeByte(x[0]), Escape(more), end);
      }
    }
  }

  lemma LoneBackslash(rest: seq<byte>)
    ensures InString([BACKSLASH, BACKSLASH] + ([QUOTE] + rest)) == [BACKSLASH, BACKSLASH] + ([QUOTE] + InString(rest))
  {
    var s := [BACKSLASH] + ([QUOTE] + rest);
    assert [BACKSLASH, BACKSLASH] + ([QUOTE] + rest) == [BACKSLASH] + s;
    CopiesInString(BACKSLASH, s);
    assert s == [BACKSLASH, QUOTE] + rest && s[2..] == rest;
  }

  /** An escaped string that is not empty does not start with a quote. */
  lemma EscapedStart(x: CChars, close: seq<byte>)
    ensures x != [] ==> Escape(x) + close != [] && (Escape(x) + close)[0] != QUOTE
  {}

  lemma ReadsEscapedByte(b: byte, tail: seq<byte>)
    requires b == BACKSLASH ==> tail == [] || tail[0] != QUOTE
    ensures InString(EscapeByte(b) + tail) == EscapeByte(b) + InString(tail)
  {
    hide InString;
    if b == QUOTE {
      assert EscapeByte(b) == [BACKSLASH, QUOTE];
      ShortEscapeRead(QUOTE, tail);
    } else if ShortEscape(b).Chars? {
      var c := ShortEscape(b).chars[0];
      assert EscapeByte(b) == [BACKSLASH, c];
      ShortEscapeRead(c, tail);
    } else if b < 32 {
      LongEscape(HexDigit(b / 16), HexDigit(b % 16), tail);
    } else {
      CopiesInString(b, tail);
    }
  }

  lemma ShortEscapeRead(c: byte, tail: seq<byte>)
    requires c == BACKSLASH ==> tail == [] || tail[0] != QUOTE
    ensures InString([BACKSLASH, c] + tail) == [BACKSLASH, c] + InString(tail)
  {
    Pair(BACKSLASH, c, tail);
    if c != QUOTE {
      hide InString;
      CopiesInString(BACKSLASH, [c] + tail);
      CopiesInString(c, tail);
      Pair(BACKSLASH, c, InString(tail));
    }
  }

  lemma LongEscape(d: byte, e: byte, tail: seq<byte>)
    requires d != QUOTE && d != BACKSLASH && e != QUOTE && e != BACKSLASH
    ensures InString([BACKSLASH, LOWER_U, 48, 48, d, e] + tail) == [BACKSLASH, LOWER_U, 48, 48, d, e] + InString(tail)
  {
    hide InString;
    var t1 := [e] + tail;
    var t2 := [d] + t1;
    var t3 := [48] + t2;
    var t4 := [48] + t3;
    var t5 := [LOWER_U] + t4;
    CopiesInString(e, tail);
    CopiesInString(d, t1);
    CopiesInString(48, t2);
    CopiesInString(48, t3);
    CopiesInString(LOWER_U, t4);
    CopiesInString(BACKSLASH, t5);
    assert [BACKSLASH, LOWER_U, 48, 48, d, e] + tail == [BACKSLASH] + t5;
    assert [BACKSLASH] + ([LOWER_U] + ([48] + ([48] + ([d] + ([e] + InString(tail))))))
        == [BACKSLASH, LOWER_U, 48, 48, d, e] + InString(tail);
  }

  /** A printed string is copied whole; what it ends in decides whether the minifier knows that it is over. */
  lemma ReadsString(x: CString, rest: seq<byte>)
    ensures Minified(StringText(x) + rest) == StringText(x) + AfterString(x, rest)
  {
    hide InString, Escape;
    var chars: CChars := CharsOf(x);
    var e := Escape(chars);
    assert StringText(x) == [QUOTE] + e + [QUOTE];
    Assoc4([QUOTE], e, [QUOTE], rest);
    Cons(QUOTE, e + ([QUOTE] + rest));
    ReadsEscaped(chars, rest);
    Assoc4([QUOTE], e, [QUOTE], AfterString(x, rest));
  }

  /** The string scanner finds the true end of a printed string, whatever follows, if and only if the string does not end in a backslash. */
  lemma StringEndFound(x: CChars)
    ensures (forall rest :: Minified(Quoted(x) + rest) == Quoted(x) + Minified(rest)) <==> !EndsInBackslash(Chars(x))
  {
    var sp: seq<byte> := [SPACE];
    ReadsString(Chars(x), sp);
    assert InString(sp) == [SPACE] && Minified(sp) == [];
    if !EndsInBackslash(Chars(x)) {
      forall rest ensures Minified(Quoted(x) + rest) == Quoted(x) + Minified(rest) {
        ReadsString(Chars(x), rest);
      }
    } else {
      assert |Quoted(x) + InString(sp)| != |Quoted(x) + Minified(sp)|;
      assert Minified(Quoted(x) + sp) != Quoted(x) + Minified(sp);
    }
  }

  lemma NumberIsPlain(lib: Lib, d: real)
    requires Renders(lib, d)
    ensures forall i :: 0 <= i < |NumberText(lib, d)| ==> Plain(NumberText(lib, d)[i])
  {
    var t := NumberText(lib, d);
    forall i | 0 <= i < |t| ensures Plain(t[i]) {
      assert NumberByte(t[i]);
    }
  }

  // ---- trees without such strings

  lemma {:induction false} TameMinifies(lib: Lib, it: Item, depth: nat, fmt: bool, rest: seq<byte>)
    requires Parses(lib, it, depth) && Tame(it)
    ensures Minified(Print(lib, it, depth, fmt, rest)) == Print(lib, it, depth, false, Minified(rest))
    decreases it, 0
  {
    hide Minified, PrintElements, PrintMembers, StringText, NumberText;
    match it.kind {
      case Null => CopiesPlain(NULL_TEXT, rest);
      case False => CopiesPlain(FALSE_TEXT, rest);
      case True => CopiesPlain(TRUE_TEXT, rest);
      case Number =>
        NumberIsPlain(lib, it.num);
        CopiesPlain(NumberText(lib, it.num), rest);
      case String => ReadsString(it.text, rest);
      case Array =>
        var close := [RBRACKET] + rest;
        TameElementsMinify(lib, it.kids, depth + 1, fmt, close);
        CopiesPlain([RBRACKET], rest);
        CopiesPlain([LBRACKET], PrintElements(lib, it.kids, depth + 1, fmt, close));
      case Object => TameObjectMinifies(lib, it, depth, fmt, rest);
    }
  }

  lemma {:induction false} TameObjectMinifies(lib: Lib, it: Item, depth: nat, fmt: bool, rest: seq<byte>)
    requires it.kind == Object && Parses(lib, it, depth) && Tame(it)
    ensures Minified(Print(lib, it, depth, fmt, rest)) == Print(lib, it, depth, false, Minified(rest))
    decreases it.kids, 1
  {
    hide Minified, Print, PrintMembers, Tabs;
    PrintedObject(lib, it, depth, fmt, rest);
    PrintedObject(lib, it, depth, false, Minified(rest));
    var nl, tabs := When(fmt, [NEWLINE]), When(fmt, Tabs(depth));
    var close := tabs + ([RBRACE] + rest);
    var members := PrintMembers(lib, it.kids, depth + 1, fmt, close);
    TameMembersMinify(lib, it.kids, depth + 1, fmt, close);
    CopiesPlain([RBRACE], rest);
    DropsBlank(tabs, [RBRACE] + rest);
    DropsBlank(nl, members);
    CopiesPlain([LBRACE], nl + members);
    Empty([RBRACE] + Minified(rest));
    Empty(PrintMembers(lib, it.kids, depth + 1, false, [RBRACE] + Minified(rest)));
  }

  lemma {:induction false} TameElementsMinify(lib: Lib, kids: seq<Item>, depth: nat, fmt: bool, rest: seq<byte>)
    requires ParsesAll(lib, kids, depth) && TameElements(kids)
    ensures Minified(PrintElements(lib, kids, depth, fmt, rest)) == PrintElements(lib, kids, depth, false, Minified(rest))
    decreases kids, 0
  {
    hide Minified, Print;
    if kids != [] {
      TameMinifies(lib, kids[0], depth, fmt, MoreElements(lib, kids[1..], depth, fmt, rest));
      MoreElementsMinify(lib, kids[1..], depth, fmt, rest);
    }
  }

  lemma {:induction false} MoreElementsMinify(lib: Lib, kids: seq<Item>, depth: nat, fmt: bool, rest: seq<byte>)
    requires ParsesAll(lib, kids, depth) && TameElements(kids)
    ensures Minified(MoreElements(lib, kids, depth, fmt, rest)) == MoreElements(lib, kids, depth, false, Minified(rest))
    decreases kids, 1
  {
    hide Minified, PrintElements;
    if kids != [] {
      var elements := PrintElements(lib, kids, depth, fmt, rest);
      CopiesPlain([COMMA], When(fmt, [SPACE]) + elements);
      DropsBlank(When(fmt, [SPACE]), elements);
      TameElementsMinify(lib, kids, depth, fmt, rest);
      Empty(PrintElements(lib, kids, depth, false, Minified(rest)));
    }
  }

  lemma {:induction false} TameMembersMinify(lib: Lib, kids: seq<Item>, depth: nat, fmt: bool, rest: seq<byte>)
    requires ParsesAll(lib, kids, depth) && TameMembers(kids)
    ensures Minified(PrintMembers(lib, kids, depth, fmt, rest)) == PrintMembers(lib, kids, depth, false, Minified(rest))
    decreases kids, 0
  {
    hide Minified, PrintMember, MoreMembers;
    if kids != [] {
      var more := MoreMembers(lib, kids[1..], depth, fmt, rest);
      DropsBlank(When(fmt, Tabs(depth)), PrintMember(lib, kids[0], depth, fmt, more));
      TameMemberMinifies(lib, kids[0], depth, fmt, more);
      MoreMembersMinify(lib, kids[1..], depth, fmt, rest);
      Empty(PrintMember(lib, kids[0], depth, false, MoreMembers(lib, kids[1..], depth, false, Minified(rest))));
    }
  }

  lemma {:induction false} MoreMembersMinify(lib: Lib, kids: seq<Item>, depth: nat, fmt: bool, rest: seq<byte>)
    requires ParsesAll(lib, kids, depth) && TameMembers(kids)
    ensures Minified(MoreMembers(lib, kids, depth, fmt, rest)) == MoreMembers(lib, kids, depth, false, Minified(rest))
    decreases kids, 1
  {
    hide Minified, PrintMembers;
    var nl, members := When(fmt, [NEWLINE]), PrintMembers(lib, kids, depth, fmt, rest);
    CopiesPlain(When(kids != [], [COMMA]), nl + members);
    DropsBlank(nl, members);
    TameMembersMinify(lib, kids, depth, fmt, rest);
    Empty(PrintMembers(lib, kids, depth, false, Minified(rest)));
  }

  lemma {:induction false} TameMemberMinifies(lib: Lib, kid: Item, depth: nat, fmt: bool, rest: seq<byte>)
    requires Parses(lib, kid, depth) && Tame(kid) && !EndsInBackslash(kid.name)
    ensures Minified(PrintMember(lib, kid, depth, fmt, rest)) == PrintMember(lib, kid, depth, false, Minified(rest))
    decreases kid, 1
  {
    hide Minified, Print, StringText;
    var tab, value := When(fmt, [TAB]), Print(lib, kid, depth, fmt, rest);
    ReadsString(kid.name, [COLON] + (tab + value));
    CopiesPlain([COLON], tab + value);
    DropsBlank(tab, value);
    TameMinifies(lib, kid, depth, fmt, rest);
    Empty(Print(lib, kid, depth, false, Minified(rest)));
  }

  // ---- the free string at the end

  /** Up to a free string at its end the tree is minified; behind that string the minifier takes the text for string contents. */
  lemma {:induction false} LastMinifies(lib: Lib, it: Item, depth: nat, fmt: bool, rest: seq<byte>)
    requires Parses(lib, it, depth) && TameToLast(it) && !Tame(it)
    ensures Minified(Print(lib, it, depth, fmt, rest)) == Print(lib, it, depth, false, InString(rest))
    decreases it, 0
  {
    hide Minified, InString, PrintElements, PrintMembers, StringText;
    if it.kind == String {
      ReadsString(it.text, rest);
    } else {
      var close := [RBRACKET] + rest;
      LastElementMinifies(lib, it.kids, depth + 1, fmt, close);
      CopiesInString(RBRACKET, rest);
      CopiesPlain([LBRACKET], PrintElements(lib, it.kids, depth + 1, fmt, close));
    }
  }

  lemma {:induction false} LastElementMinifies(lib: Lib, kids: seq<Item>, depth: nat, fmt: bool, rest: seq<byte>)
    requires ParsesAll(lib, kids, depth) && TameToLastElement(kids) && !TameElements(kids)
    ensures Minified(PrintElements(lib, kids, depth, fmt, rest)) == PrintElements(lib, kids, depth, false, InString(rest))
    decreases kids, 0
  {
    hide Minified, InString, Print;
    if |kids| == 1 {
      assert kids[1..] == [];
      LastMinifies(lib, kids[0], depth, fmt, rest);
    } else {
      var elements := PrintElements(lib, kids[1..], depth, fmt, rest);
      TameMinifies(lib, kids[0], depth, fmt, MoreElements(lib, kids[1..], depth, fmt, rest));
      CopiesPlain([COMMA], When(fmt, [SPACE]) + elements);
      DropsBlank(When(fmt, [SPACE]), elements);
      LastElementMinifies(lib, kids[1..], depth, fmt, rest);
      Empty(PrintElements(lib, kids[1..], depth, false, InString(rest)));
    }
  }

  // ---- a string that misleads the minifier while more than brackets follows

  lemma NotPrefixBehind(t: seq<byte>, a: seq<byte>, b: seq<byte>)
    requires !(a <= b)
    ensures !(t + a <= t + b)
  {
    if |a| <= |b| {
      var i :| 0 <= i < |a| && a[i] != b[i];
      assert (t + a)[|t| + i] == a[i] && (t + b)[|t| + i] == b[i];
    }
  }

  lemma NotPrefixLonger(a: seq<byte>, x: seq<byte>, b: seq<byte>)
    requires !(a <= b)
    ensures !(a + x <= b)
  {}

  /** From the point where the compact text goes on with `x` and the minified one with `y`. */
  lemma Diverges(lib: Lib, it: Item, depth: nat, x: seq<byte>, y: seq<byte>)
    requires !(x <= y)
    ensures !(Print(lib, it, depth, false, x) <= Print(lib, it, depth, false, y))
  {
    hide Print;
    TextRest(lib, it, depth, false, x);
    TextRest(lib, it, depth, false, y);
    NotPrefixBehind(Text(lib, it, depth, false), x, y);
  }

  lemma {:induction false} Misled(lib: Lib, it: Item, depth: nat, rest: seq<byte>)
    requires Parses(lib, it, depth) && !TameToLast(it)
    ensures !(Text(lib, it, depth, false) <= Minified(Print(lib, it, depth, true, rest)))
    decreases it, 0
  {
    hide Minified, PrintElements, PrintMembers;
    if it.kind == Array {
      var close := [RBRACKET] + rest;
      var elements := PrintElements(lib, it.kids, depth + 1, true, close);
      CopiesPlain([LBRACKET], elements);
      ElementsMisled(lib, it.kids, depth + 1, close);
      Empty([RBRACKET]);
      NotPrefixBehind([LBRACKET], PrintElements(lib, it.kids, depth + 1, false, [RBRACKET]), Minified(elements));
    } else {
      var close := Tabs(depth) + ([RBRACE] + rest);
      var members := PrintMembers(lib, it.kids, depth + 1, true, close);
      CopiesPlain([LBRACE], [NEWLINE] + members);
      DropsBlank([NEWLINE], members);
      MembersMisled(lib, it.kids, depth + 1, close);
      Empty([RBRACE]);
      var compact := PrintMembers(lib, it.kids, depth + 1, false, [RBRACE]);
      Empty(compact);
      NotPrefixBehind([LBRACE], compact, Minified(members));
    }
  }

  lemma {:induction false} ElementsMisled(lib: Lib, kids: seq<Item>, depth: nat, rest: seq<byte>)
    requires ParsesAll(lib, kids, depth) && !TameToLastElement(kids)
    ensures !(PrintElements(lib, kids, depth, false, [RBRACKET]) <= Minified(PrintElements(lib, kids, depth, true, rest)))
    decreases kids, 0
  {
    hide Minified, InString, Print;
    var more := MoreElements(lib, kids[1..], depth, true, rest);
    var compact := MoreElements(lib, kids[1..], depth, false, [RBRACKET]);
    if !TameToLast(kids[0]) {
      Misled(lib, kids[0], depth, more);
      TextRest(lib, kids[0], depth, false, compact);
      NotPrefixLonger(Text(lib, kids[0], depth, false), compact, Minified(Print(lib, kids[0], depth, true, more)));
    } else {
      var elements := PrintElements(lib, kids[1..], depth, true, rest);
      var others := PrintElements(lib, kids[1..], depth, false, [RBRACKET]);
      Empty(others);
      if Tame(kids[0]) {
        TameMinifies(lib, kids[0], depth, true, more);
        CopiesPlain([COMMA], [SPACE] + elements);
        DropsBlank([SPACE], elements);
        ElementsMisled(lib, kids[1..], depth, rest);
        NotPrefixBehind([COMMA], others, Minified(elements));
        Diverges(lib, kids[0], depth, compact, Minified(more));
      } else {
        LastMinifies(lib, kids[0], depth, true, more);
        CopiesInString(COMMA, [SPACE] + elements);
        CopiesInString(SPACE, elements);
        PrintStarts(lib, kids[1], depth, false, MoreElements(lib, kids[1..][1..], depth, false, [RBRACKET]));
        NotPrefix(others, [SPACE] + InString(elements));
        NotPrefixBehind([COMMA], others, [SPACE] + InString(elements));
        Diverges(lib, kids[0], depth, compact, InString(more));
      }
    }
  }

  lemma {:induction false} MembersMisled(lib: Lib, kids: seq<Item>, depth: nat, rest: seq<byte>)
    requires ParsesAll(lib, kids, depth) && !TameMembers(kids)
    ensures !(PrintMembers(lib, kids, depth, false, [RBRACE]) <= Minified(PrintMembers(lib, kids, depth, true, rest)))
    decreases kids, 0
  {
    hide Minified, PrintMember, MoreMembers;
    var more := MoreMembers(lib, kids[1..], depth, true, rest);
    var compact := MoreMembers(lib, kids[1..], depth, false, [RBRACE]);
    DropsBlank(Tabs(depth), PrintMember(lib, kids[0], depth, true, more));
    Empty(PrintMember(lib, kids[0], depth, false, compact));
    if EndsInBackslash(kids[0].name) {
      KeyMisled(lib, kids[0], depth, compact, more);
    } else if !Tame(kids[0]) {
      ValueMisled(lib, kids, depth, rest);
    } else {
      MoreMembersMisled(lib, kids[1..], depth, rest);
      TameMemberMinifies(lib, kids[0], depth, true, more);
      MemberDiverges(lib, kids[0], depth, compact, Minified(more));
    }
  }

  lemma {:induction false} MoreMembersMisled(lib: Lib, kids: seq<Item>, depth: nat, rest: seq<byte>)
    requires ParsesAll(lib, kids, depth) && !TameMembers(kids)
    ensures !(MoreMembers(lib, kids, depth, false, [RBRACE]) <= Minified(MoreMembers(lib, kids, depth, true, rest)))
    decreases kids, 1
  {
    hide Minified, PrintMembers;
    var members := PrintMembers(lib, kids, depth, true, rest);
    var others := PrintMembers(lib, kids, depth, false, [RBRACE]);
    MembersMisled(lib, kids, depth, rest);
    CopiesPlain([COMMA], [NEWLINE] + members);
    DropsBlank([NEWLINE], members);
    Empty(others);
    NotPrefixBehind([COMMA], others, Minified(members));
  }

  lemma MemberDiverges(lib: Lib, kid: Item, depth: nat, x: seq<byte>, y: seq<byte>)
    requires !(x <= y)
    ensures !(PrintMember(lib, kid, depth, false, x) <= PrintMember(lib, kid, depth, false, y))
  {
    hide Print, StringText;
    Diverges(lib, kid, depth, x, y);
    var vx, vy := Print(lib, kid, depth, false, x), Print(lib, kid, depth, false, y);
    Empty(vx);
    Empty(vy);
    NotPrefixBehind([COLON], vx, vy);
    NotPrefixBehind(StringText(kid.name), [COLON] + vx, [COLON] + vy);
  }

  /** Behind such a key the tab after the colon is kept. */
  lemma KeyMisled(lib: Lib, kid: Item, depth: nat, x: seq<byte>, y: seq<byte>)
    requires Parses(lib, kid, depth) && EndsInBackslash(kid.name)
    ensures !(PrintMember(lib, kid, depth, false, x) <= Minified(PrintMember(lib, kid, depth, true, y)))
  {
    hide Print, StringText, Minified, InString;
    var vx, vy := Print(lib, kid, depth, false, x), Print(lib, kid, depth, true, y);
    ReadsString(kid.name, [COLON] + ([TAB] + vy));
    CopiesInString(COLON, [TAB] + vy);
    CopiesInString(TAB, vy);
    PrintStarts(lib, kid, depth, false, x);
    Empty(vx);
    NotPrefix(vx, [TAB] + InString(vy));
    NotPrefixBehind([COLON], vx, [TAB] + InString(vy));
    NotPrefixBehind(StringText(kid.name), [COLON] + vx, [COLON] + ([TAB] + InString(vy)));
  }

  /** Behind such a value the line break is kept, where the compact text has a quote or a brace. */
  lemma {:induction false} ValueMisled(lib: Lib, kids: seq<Item>, depth: nat, rest: seq<byte>)
    requires kids != [] && ParsesAll(lib, kids, depth) && !EndsInBackslash(kids[0].name) && !Tame(kids[0])
    ensures var more := MoreMembers(lib, kids[1..], depth, true, rest);
            var compact := MoreMembers(lib, kids[1..], depth, false, [RBRACE]);
            !(PrintMember(lib, kids[0], depth, false, compact) <= Minified(PrintMember(lib, kids[0], depth, true, more)))
    decreases kids[0], 2
  {
    hide Print, StringText, Minified, InString, MoreMembers;
    var kid := kids[0];
    var more := MoreMembers(lib, kids[1..], depth, true, rest);
    var compact := MoreMembers(lib, kids[1..], depth, false, [RBRACE]);
    var v, value := Print(lib, kid, depth, false, compact), Print(lib, kid, depth, true, more);
    ReadsString(kid.name, [COLON] + ([TAB] + value));
    CopiesPlain([COLON], [TAB] + value);
    DropsBlank([TAB], value);
    if TameToLast(kid) {
      LastMinifies(lib, kid, depth, true, more);
      LineBreakKept(lib, kids[1..], depth, rest);
      Diverges(lib, kid, depth, compact, InString(more));
    } else {
      Misled(lib, kid, depth, more);
      TextRest(lib, kid, depth, false, compact);
      NotPrefixLonger(Text(lib, kid, depth, false), compact, Minified(value));
    }
    Empty(v);
    NotPrefixBehind([COLON], v, Minified(value));
    NotPrefixBehind(StringText(kid.name), [COLON] + v, [COLON] + Minified(value));
  }

  lemma LineBreakKept(lib: Lib, kids: seq<Item>, depth: nat, rest: seq<byte>)
    ensures !(MoreMembers(lib, kids, depth, false, [RBRACE]) <= InString(MoreMembers(lib, kids, depth, true, rest)))
  {
    hide InString, StringText;
    var members := PrintMembers(lib, kids, depth, true, rest);
    var others := PrintMembers(lib, kids, depth, false, [RBRACE]);
    CopiesInString(NEWLINE, members);
    Empty(others);
    Empty([NEWLINE] + members);
    assert others[0] != NEWLINE by { MembersStart(lib, kids, depth, [RBRACE]); }
    NotPrefix(others, [NEWLINE] + InString(members));
    if kids != [] {
      CopiesInString(COMMA, [NEWLINE] + members);
      NotPrefixBehind([COMMA], others, [NEWLINE] + InString(members));
    }
  }

  lemma MembersStart(lib: Lib, kids: seq<Item>, depth: nat, rest: seq<byte>)
    requires rest != [] && rest[0] != NEWLINE
    ensures var t := PrintMembers(lib, kids, depth, false, rest); t != [] && t[0] != NEWLINE
  {
    hide Print, MoreMembers, Escape;
    if kids != [] {
      assert StringText(kids[0].name)[0] == QUOTE;
    }
  }

  // ---- both printing modes through the minifier

  /**
   Minified formatted text is the compact text, byte for byte, exactly when no
   string or key ends in a backslash other than one that only the brackets of
   arrays follow.
   */
  lemma MinifyAgrees(lib: Lib, it: Item)
    requires Parses(lib, it, 0)
    ensures Minified(Text(lib, it, 0, true)) == Text(lib, it, 0, false) <==> TameToLast(it)
    ensures TameToLast(it) ==> Minified(Text(lib, it, 0, false)) == Text(lib, it, 0, false)
  {
    hide Print, Minified, InString;
    NothingLeft();
    if Tame(it) {
      TameIsTameToLast(it);
      TameMinifies(lib, it, 0, true, []);
      TameMinifies(lib, it, 0, false, []);
    } else if TameToLast(it) {
      LastMinifies(lib, it, 0, true, []);
      LastMinifies(lib, it, 0, false, []);
    } else {
      Misled(lib, it, 0, []);
    }
  }

  /** The smallest offender: a string holding one backslash, with an element behind it. */
  lemma BackslashKeepsSpace(lib: Lib)
    ensures var it := BLANK.(kind := Array, kids := [BLANK.(kind := String, text := Chars([BACKSLASH])), BLANK.(kind := Null)]);
            Parses(lib, it, 0) && Minified(Text(lib, it, 0, true)) != Text(lib, it, 0, false)
  {
    var s := BLANK.(kind := String, text := Chars([BACKSLASH]));
    var kids := [s, BLANK.(kind := Null)];
    var it := BLANK.(kind := Array, kids := kids);
    assert kids[1..] == [BLANK.(kind := Null)];
    assert Parses(lib, kids[1..][0], 1) && ParsesAll(lib, kids[1..][1..], 1);
    assert ParsesAll(lib, kids[1..], 1);
    assert ParsesAll(lib, kids, 1);
    assert !Tame(s);
    assert !TameToLast(it);
    MinifyAgrees(lib, it);
  }
}
