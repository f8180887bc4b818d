/**
 The printed text by its structure: which white space stands where, and how
 the bytes of strings are written. Characters stand for themselves.
 */
module JsonPrinted {
  import opened Bytes
  import opened Seqs
  import opened Items
  import opened Numbers
  import opened StringCodec
  import opened PrintedText
  import opened Json
  import S = JsonStrings

  // ---- strings

  function HexChar(d: nat): byte
    requires d < 16
  {
    if d < 10 then S.Code('0') + d else S.Code('a') + (d - 10)
  }

  /** A quote, a backslash and the control characters are escaped, in one letter if they have one. */
  function Written(b: byte): S.Unit {
    S.Unit(if b == S.Code('"') then S.Ascii("\\\"")
           else if b == S.Code('\\') then S.Ascii("\\\\")
           else if b == 8 then S.Ascii("\\b")
           else if b == 12 then S.Ascii("\\f")
           else if b == 10 then S.Ascii("\\n")
           else if b == 13 then S.Ascii("\\r")
           else if b == 9 then S.Ascii("\\t")
           else if b < 32 then S.Ascii("\\u00") + [HexChar(b / 16), HexChar(b % 16)]
           else [b],
           [b])
  }

  function Units(x: seq<byte>): (us: seq<S.Unit>)
    ensures |us| == |x|
  {
    if x == [] then [] else [Written(x[0])] + Units(x[1..])
  }

  lemma WrittenByte(b: byte)
    ensures EscapeByte(b) == Written(b).text
  {
    if b < 32 && ShortEscape(b).NoString? {
      assert S.Ascii("\\u00") == [BACKSLASH, LOWER_U, 48, 48];
    } else if b > 31 && b != QUOTE && b != BACKSLASH {
    } else {
      assert Written(b).text[1] == ShortEscape(b).chars[0];
    }
  }

  lemma WrittenStandard(b: byte)
    ensures S.Standard(Written(b))
  {
    if b < 32 && ShortEscape(b).NoString? {
      var t := Written(b).text;
      assert S.HexDigit(HexChar(b / 16)) && S.HexDigit(HexChar(b % 16));
      assert t[2] == t[3] == S.Code('0');
      assert S.UEscape(t) && S.UValue(t) == b;
    }
  }

  /** A printed string is its bytes' escapes, and those are standard ones that stand for them. */
  lemma {:induction false} EscapeIsUnits(x: seq<byte>)
    ensures var us := Units(x);
            Escape(x) == S.Texts(us) && S.AllStandard(us) && S.Meant(us) == x
  {
    hide Written, EscapeByte, S.Standard;
    if x != [] {
      var us := Units(x);
      assert us[0] == Written(x[0]) && us[1..] == Units(x[1..]);
      EscapeIsUnits(x[1..]);
      WrittenByte(x[0]);
      WrittenStandard(x[0]);
      assert Written(x[0]).bytes == [x[0]] by { BytesWritten(x[0]); }
      assert x == [x[0]] + x[1..];
    }
  }

  lemma BytesWritten(b: byte)
    ensures Written(b).bytes == [b]
  {}

  /** A NULL string is written as an empty one. */
  function CharsOf(x: CString): CChars {
    if x.Chars? then x.chars else []
  }

  function Body(x: CString): seq<byte> {
    S.Texts(Units(CharsOf(x)))
  }

  // ---- values

  /** A line break and one tab for each level. */
  function Line(depth: nat): seq<byte> {
    S.Ascii("\n") + seq(depth, i => S.Code('\t'))
  }

  /**
   The item as it is written: each member of an object on its own line, one
   level further in, a tab behind its colon, and the closing brace on a line of
   its own; in arrays a space behind each comma. Unformatted, no white space.
   */
  function Layout(lib: Lib, it: Item, depth: nat, fmt: bool): Value
    decreases it, 0
  {
    match it.kind
    case Invalid => Figure([], 0.0)
    case False | True | Null => Word(it.kind)
    case Number => Figure(NumberText(lib, it.num), it.num)
    case String => Quote(Body(it.text), CharsOf(it.text))
    case Raw => Figure(CharsOf(it.text), 0.0)
    case Array => Brackets([], LayoutElements(lib, it.kids, depth + 1, fmt, []))
    case Object => Braces(When(fmt, Line(depth)), LayoutMembers(lib, it.kids, depth + 1, fmt))
  }

  function LayoutElements(lib: Lib, kids: seq<Item>, depth: nat, fmt: bool, before: seq<byte>): (es: seq<Element>)
    ensures |es| == |kids|
    decreases kids, 0
  {
    if kids == [] then []
    else
      [Element(before, Layout(lib, kids[0], depth, fmt), [])]
      + LayoutElements(lib, kids[1..], depth, fmt, When(fmt, S.Ascii(" ")))
  }

  function LayoutMembers(lib: Lib, kids: seq<Item>, depth: nat, fmt: bool): (ms: seq<Member>)
    requires depth > 0
    ensures |ms| == |kids|
    decreases kids, 0
  {
    if kids == [] then [] else [LayoutMember(lib, kids, depth, fmt)] + LayoutMembers(lib, kids[1..], depth, fmt)
  }

  function LayoutMember(lib: Lib, kids: seq<Item>, depth: nat, fmt: bool): Member
    requires kids != [] && depth > 0
    decreases kids[0], 1
  {
    Member(When(fmt, Line(depth)), Body(kids[0].name), CharsOf(kids[0].name), [],
           When(fmt, S.Ascii("\t")), Layout(lib, kids[0], depth, fmt), When(fmt && |kids| == 1, Line(depth - 1)))
  }

  // ---- that is what is printed

  lemma Blanks()
    ensures S.Ascii("\n") == [NEWLINE] && S.Ascii("\t") == [TAB] && S.Ascii(" ") == [SPACE]
    ensures WordText(Null) == NULL_TEXT && WordText(True) == TRUE_TEXT && WordText(False) == FALSE_TEXT
  {}

  lemma LineIs(depth: nat)
    ensures Line(depth) == [NEWLINE] + Tabs(depth)
  {
    Blanks();
    assert seq(depth, i => S.Code('\t')) == Tabs(depth);
  }

  lemma StringSpelled(x: CString, rest: seq<byte>)
    ensures StringText(x) + rest == SpellString(Body(x), rest)
  {
    hide Escape, Units, S.Texts;
    var chars := CharsOf(x);
    EscapeIsUnits(chars);
    Assoc4([QUOTE], Escape(chars), [QUOTE], rest);
  }

  /** What is printed is the item as it is laid out. */
  lemma {:induction false} PrintSpells(lib: Lib, it: Item, depth: nat, fmt: bool, rest: seq<byte>)
    ensures Print(lib, it, depth, fmt, rest) == Spell(Layout(lib, it, depth, fmt), rest)
    decreases it, 0
  {
    hide PrintElements, PrintMembers, LayoutElements, LayoutMembers, SpellElements, SpellMembers, StringText, SpellString,
      Body, NumberText;
    Blanks();
    match it.kind {
      case Invalid => Empty(rest);
      case False | True | Null | Number | Raw =>
      case String => StringSpelled(it.text, rest);
      case Array => PrintSpellsElements(lib, it.kids, depth + 1, fmt, [], [RBRACKET] + rest);
      case Object => PrintSpellsObject(lib, it, depth, fmt, rest);
    }
  }

  lemma {:induction false} PrintSpellsElements(lib: Lib, kids: seq<Item>, depth: nat, fmt: bool, w: seq<byte>, rest: seq<byte>)
    ensures kids == [] ==> PrintElements(lib, kids, depth, fmt, rest) == rest
    ensures kids != [] ==>
              w + PrintElements(lib, kids, depth, fmt, rest) == SpellElements(LayoutElements(lib, kids, depth, fmt, w), rest)
    decreases kids, 1
  {
    hide Print, Layout, Spell;
    if kids != [] {
      var es, sp := LayoutElements(lib, kids, depth, fmt, w), When(fmt, [SPACE]);
      var more := MoreElements(lib, kids[1..], depth, fmt, rest);
      assert es[1..] == LayoutElements(lib, kids[1..], depth, fmt, sp) by { Blanks(); }
      PrintSpellsElements(lib, kids[1..], depth, fmt, sp, rest);
      PrintSpells(lib, kids[0], depth, fmt, more);
      Empty(more);
    }
  }

  lemma {:induction false} PrintSpellsObject(lib: Lib, it: Item, depth: nat, fmt: bool, rest: seq<byte>)
    requires it.kind == Object
    ensures Print(lib, it, depth, fmt, rest) == Spell(Layout(lib, it, depth, fmt), rest)
    decreases it.kids, 3
  {
    hide Print, Spell, Layout, PrintMembers, LayoutMembers, SpellMembers, Tabs, Line;
    var nl, tabs, close := When(fmt, [NEWLINE]), When(fmt, Tabs(depth)), [RBRACE] + rest;
    PrintedObject(lib, it, depth, fmt, rest);
    LaidOutObject(lib, it, depth, fmt, rest);
    PrintSpellsMembers(lib, it.kids, depth + 1, fmt, close);
    Assoc(nl, tabs, close);
    LineIs(depth);
    Empty(close);
    Empty(nl);
  }

  lemma LaidOutObject(lib: Lib, it: Item, depth: nat, fmt: bool, rest: seq<byte>)
    requires it.kind == Object
    ensures Spell(Layout(lib, it, depth, fmt), rest) ==
            [LBRACE] + if it.kids == [] then When(fmt, Line(depth)) + ([RBRACE] + rest)
                       else SpellMembers(LayoutMembers(lib, it.kids, depth + 1, fmt), [RBRACE] + rest)
  {
    hide LayoutMembers, SpellMembers, Line;
  }

  /** Members behind the line break that comes first. */
  lemma {:induction false} PrintSpellsMembers(lib: Lib, kids: seq<Item>, depth: nat, fmt: bool, rest: seq<byte>)
    requires depth > 0
    ensures var close := When(fmt, Tabs(depth - 1)) + rest;
            var s := When(fmt, [NEWLINE]) + PrintMembers(lib, kids, depth, fmt, close);
            s == if kids == [] then When(fmt, [NEWLINE]) + close
                 else SpellMembers(LayoutMembers(lib, kids, depth, fmt), rest)
    decreases kids, 2
  {
    hide PrintMember, LayoutMember, Tabs, Line, Spell, SpellString;
    if kids != [] {
      var nl, tabs := When(fmt, [NEWLINE]), When(fmt, Tabs(depth));
      var close := When(fmt, Tabs(depth - 1)) + rest;
      var ms := LayoutMembers(lib, kids, depth, fmt);
      var more := MoreMembers(lib, kids[1..], depth, fmt, close);
      assert ms[0] == LayoutMember(lib, kids, depth, fmt) && ms[1..] == LayoutMembers(lib, kids[1..], depth, fmt);
      PrintSpellsMembers(lib, kids[1..], depth, fmt, rest);
      var end := if ms[1..] == [] then rest else [COMMA] + SpellMembers(ms[1..], rest);
      assert more == When(fmt && |kids| == 1, Line(depth - 1)) + end by {
        LineIs(depth - 1);
        Assoc(nl, When(fmt, Tabs(depth - 1)), rest);
        Empty(nl + close);
        Empty(rest);
        Empty(end);
      }
      PrintSpellsMember(lib, kids, depth, fmt, end);
      LineIs(depth);
      Assoc(nl, tabs, PrintMember(lib, kids[0], depth, fmt, more));
      Empty(nl);
    }
  }

  lemma {:induction false} PrintSpellsMember(lib: Lib, kids: seq<Item>, depth: nat, fmt: bool, end: seq<byte>)
    requires kids != [] && depth > 0
    ensures var m, behind := LayoutMember(lib, kids, depth, fmt), When(fmt && |kids| == 1, Line(depth - 1));
            && m.before == When(fmt, Line(depth)) && m.behind == behind
            && PrintMember(lib, kids[0], depth, fmt, behind + end)
               == SpellString(m.key, m.colon + ([COLON] + (m.gap + Spell(m.value, m.behind + end))))
    decreases kids[0], 2
  {
    hide Print, Layout, Spell, StringText, SpellString, Body, Line;
    var m, behind := LayoutMember(lib, kids, depth, fmt), When(fmt && |kids| == 1, Line(depth - 1));
    PrintSpells(lib, kids[0], depth, fmt, behind + end);
    var value := [COLON] + (m.gap + Spell(m.value, behind + end));
    Blanks();
    Empty(value);
    StringSpelled(kids[0].name, value);
  }

  // ---- numbers

  /** The number that digits spell. */
  function Positional(s: seq<byte>): int {
    if s == [] then 0 else 10 * Positional(s[..|s| - 1]) + (s[|s| - 1] - S.Code('0'))
  }

  /** Digits without a zero in front (section 6 of RFC 8259). */
  predicate Digits(s: seq<byte>) {
    s != [] && S.Code('1') <= s[0] <= S.Code('9') && forall i :: 0 <= i < |s| ==> S.Code('0') <= s[i] <= S.Code('9')
  }

  predicate Decimal(t: seq<byte>, n: int) {
    if n == 0 then t == S.Ascii("0")
    else if n < 0 then t != [] && t[0] == S.Code('-') && Digits(t[1..]) && Positional(t[1..]) == -n
    else Digits(t) && Positional(t) == n
  }

  lemma {:induction false} NatTextDigits(n: nat)
    requires n > 0
    ensures Digits(NatText(n)) && Positional(NatText(n)) == n
  {
    var s := NatText(n);
    if n < 10 {
      assert s[..0] == [];
    } else {
      NatTextDigits(n / 10);
      assert s[..|s| - 1] == NatText(n / 10);
    }
  }

  /** An integer is printed as JSON has it. */
  lemma IntegersPrinted(lib: Lib, it: Item, depth: nat, fmt: bool, n: int)
    requires it.kind == Number && it.num == n as real && -0x8000_0000 <= n <= 0x7FFF_FFFF
    ensures Decimal(Text(lib, it, depth, fmt), n)
  {
    hide NatText, Digits, Positional, Renders;
    IntsRender(lib, n);
    Empty(IntText(n));
    if n == 0 {
      assert NatText(0) == S.Ascii("0") by { Zero(); }
    } else {
      NatTextDigits(if n < 0 then -n else n);
    }
    if n < 0 { Cons(MINUS, NatText(-n)); }
  }

  lemma Zero()
    ensures NatText(0) == S.Ascii("0")
  {}

  /** Any other number is left to the library. */
  lemma OthersPrinted(lib: Lib, it: Item, depth: nat, fmt: bool)
    requires it.kind == Number
    requires it.num < -2147483648.0 || it.num > 2147483647.0 || it.num.Floor as real != it.num
    ensures Text(lib, it, depth, fmt) == lib.shortest(it.num)
  {
    hide NatText;
    Empty(lib.shortest(it.num));
  }

  // ---- what can be printed

  /** How deep arrays and objects are nested in each other. */
  function Levels(it: Item): nat {
    if it.kind == Array || it.kind == Object then 1 + MostLevels(it.kids) else 0
  }

  function MostLevels(kids: seq<Item>): nat {
    if kids == [] then 0
    else
      var n, m := Levels(kids[0]), MostLevels(kids[1..]);
      if n < m then m else n
  }

  /** Nothing invalid, no raw text missing, no number longer than 25 bytes. */
  predicate Writable(lib: Lib, it: Item) {
    && it.kind != Invalid
    && (it.kind == Raw ==> it.text != NoString)
    && (it.kind == Number ==> |NumberText(lib, it.num)| <= 25)
    && (it.kind == Array || it.kind == Object ==> forall i :: 0 <= i < |it.kids| ==> Writable(lib, it.kids[i]))
  }

  /** The printer accepts exactly those, nested a thousand levels deep at most. */
  lemma {:induction false} PrintsExactly(lib: Lib, it: Item, depth: nat)
    ensures Prints(lib, it, depth) <==> Writable(lib, it) && (Levels(it) == 0 || depth + Levels(it) <= 1000)
    decreases it, 1
  {
    hide NumberText;
    if it.kind == Array || it.kind == Object { PrintsExactlyAll(lib, it.kids, depth + 1); }
  }

  lemma {:induction false} PrintsExactlyAll(lib: Lib, kids: seq<Item>, depth: nat)
    requires depth > 0
    ensures PrintsAll(lib, kids, depth) <==>
            (forall i :: 0 <= i < |kids| ==> Writable(lib, kids[i])) && (MostLevels(kids) == 0 || depth + MostLevels(kids) <= 1000)
    decreases kids, 0
  {
    hide Prints, Writable;
    if kids != [] {
      PrintsExactly(lib, kids[0], depth);
      PrintsExactlyAll(lib, kids[1..], depth);
      assert forall i :: 1 <= i < |kids| ==> kids[i] == kids[1..][i - 1];
    }
  }
}
