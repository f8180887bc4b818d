/**
 Parsing what was printed gives the same tree back, formatted or compact.
 */
module RoundTrip {
  import opened Bytes
  import opened Seqs
  import opened Items
  import opened Numbers
  import opened StringCodec
  import opened PrintedText
  import opened Grammar
  import opened Json
  import S = JsonStrings
  import opened JsonAccepted
  import opened JsonPrinted

  /**
   What a text keeps of an item: nothing of the fields its kind does not use,
   no names inside arrays, and "" for a NULL string or name.
   */
  function Kept(it: Item, name: CString): Item {
    match it.kind
    case Number => BLANK.(kind := Number, num := it.num, name := name)
    case String => BLANK.(kind := String, text := Chars(CharsOf(it.text)), name := name)
    case Array => BLANK.(kind := Array, kids := KeptAll(it.kids, false), name := name)
    case Object => BLANK.(kind := Object, kids := KeptAll(it.kids, true), name := name)
    case _ => BLANK.(kind := it.kind, name := name)
  }

  function KeptAll(kids: seq<Item>, named: bool): (r: seq<Item>)
    ensures |r| == |kids|
  {
    if kids == [] then []
    else
      [Kept(kids[0], if named then Chars(CharsOf(kids[0].name)) else NoString)] + KeptAll(kids[1..], named)
  }

  /** Trees of printable kinds nested no deeper than the limit, whose numbers read back. */
  ghost predicate Parses(lib: Lib, it: Item, depth: nat) {
    match it.kind
    case Invalid | Raw => false
    case False | True | Null | String => true
    case Number => Renders(lib, it.num)
    case Array | Object => depth < NESTING_LIMIT && ParsesAll(lib, it.kids, depth + 1)
  }

  ghost predicate ParsesAll(lib: Lib, kids: seq<Item>, depth: nat) {
    kids == [] || (Parses(lib, kids[0], depth) && ParsesAll(lib, kids[1..], depth))
  }

  // ---- what is printed, as the parser sees it

  /** A printed value starts with a byte that is neither white space nor a closing bracket. */
  lemma PrintStarts(lib: Lib, it: Item, depth: nat, fmt: bool, rest: seq<byte>)
    requires Parses(lib, it, depth)
    ensures var t := Print(lib, it, depth, fmt, rest);
            t != [] && SPACE < t[0] < 0x80 && t[0] != RBRACKET && t[0] != RBRACE
  {
    hide PrintElements, PrintMembers;
  }

  /** Strings as they are written are closed where they end, and stand for their bytes. */
  lemma WrittenReads(x: CString)
    ensures S.Closed(Body(x)) && S.Reads(Body(x), CharsOf(x))
  {
    hide Written, S.Standard, S.Lax, S.Closed, S.Texts, S.Meant;
    EscapeIsUnits(CharsOf(x));
    S.StandardCloses(Units(CharsOf(x)));
  }

  lemma LineIsWhite(depth: nat)
    ensures White(Line(depth))
  {
    hide Tabs;
    LineIs(depth);
  }

  /** As it is laid out the item is a JSON text, */
  lemma {:induction false} LayoutValid(lib: Lib, it: Item, depth: nat, fmt: bool)
    requires Parses(lib, it, depth)
    ensures Valid(lib, Layout(lib, it, depth, fmt), depth)
    decreases it, 0
  {
    hide Body, Strtod, NumberText, Line, White, S.Closed, S.Reads, ParsesAll, LayoutElements, LayoutMembers,
      ElementsValid, MembersValid;
    match it.kind {
      case False | True | Null => 
      case Number => FigureValid(lib, it, depth);
      case String => WrittenReads(it.text);
      case Array =>
        NoBlanks();
        ElementsLaidOut(lib, it.kids, depth + 1, fmt, []);
      case Object =>
        NoBlanks();
        LineIsWhite(depth);
        MembersLaidOut(lib, it.kids, depth + 1, fmt);
    }
  }

  lemma NoBlanks()
    ensures White([]) && White(S.Ascii(" ")) && White(S.Ascii("\t"))
  {}

  lemma FigureValid(lib: Lib, it: Item, depth: nat)
    requires it.kind == Number && Renders(lib, it.num)
    ensures Valid(lib, Figure(NumberText(lib, it.num), it.num), depth)
  {
    hide Strtod, NumberText;
  }

  lemma {:induction false} ElementsLaidOut(lib: Lib, kids: seq<Item>, depth: nat, fmt: bool, before: seq<byte>)
    requires ParsesAll(lib, kids, depth) && White(before)
    ensures ElementsValid(lib, LayoutElements(lib, kids, depth, fmt, before), depth)
    decreases kids, 0
  {
    hide Parses, Layout, Valid, White;
    if kids != [] {
      NoBlanks();
      LayoutValid(lib, kids[0], depth, fmt);
      ElementsLaidOut(lib, kids[1..], depth, fmt, When(fmt, S.Ascii(" ")));
      assert LayoutElements(lib, kids, depth, fmt, before)[1..]
          == LayoutElements(lib, kids[1..], depth, fmt, When(fmt, S.Ascii(" ")));
    }
  }

  lemma {:induction false} MembersLaidOut(lib: Lib, kids: seq<Item>, depth: nat, fmt: bool)
    requires ParsesAll(lib, kids, depth) && depth > 0
    ensures MembersValid(lib, LayoutMembers(lib, kids, depth, fmt), depth)
    decreases kids, 0
  {
    hide Parses, Layout, Valid, White, Line, Body, S.Closed, S.Reads;
    if kids != [] {
      NoBlanks();
      LineIsWhite(depth);
      LineIsWhite(depth - 1);
      WrittenReads(kids[0].name);
      LayoutValid(lib, kids[0], depth, fmt);
      MembersLaidOut(lib, kids[1..], depth, fmt);
      assert LayoutMembers(lib, kids, depth, fmt)[1..] == LayoutMembers(lib, kids[1..], depth, fmt);
    }
  }

  /** and stands for what it keeps. */
  lemma {:induction false} LayoutMeans(lib: Lib, it: Item, depth: nat, fmt: bool, name: CString)
    requires Parses(lib, it, depth)
    ensures Meaning(Layout(lib, it, depth, fmt), name) == Kept(it, name)
    decreases it, 0
  {
    hide Body, NumberText, Renders, Line, ParsesAll, LayoutElements, LayoutMembers, ElementMeanings, MemberMeanings, KeptAll;
    if it.kind == Array {
      ElementsMean(lib, it.kids, depth + 1, fmt, []);
    } else if it.kind == Object {
      MembersMean(lib, it.kids, depth + 1, fmt);
    }
  }

  lemma {:induction false} ElementsMean(lib: Lib, kids: seq<Item>, depth: nat, fmt: bool, before: seq<byte>)
    requires ParsesAll(lib, kids, depth)
    ensures ElementMeanings(LayoutElements(lib, kids, depth, fmt, before)) == KeptAll(kids, false)
    decreases kids, 0
  {
    hide Parses, Layout, Meaning, Kept;
    if kids != [] {
      LayoutMeans(lib, kids[0], depth, fmt, NoString);
      ElementsMean(lib, kids[1..], depth, fmt, When(fmt, S.Ascii(" ")));
      assert LayoutElements(lib, kids, depth, fmt, before)[1..]
          == LayoutElements(lib, kids[1..], depth, fmt, When(fmt, S.Ascii(" ")));
    }
  }

  lemma {:induction false} MembersMean(lib: Lib, kids: seq<Item>, depth: nat, fmt: bool)
    requires ParsesAll(lib, kids, depth) && depth > 0
    ensures MemberMeanings(LayoutMembers(lib, kids, depth, fmt)) == KeptAll(kids, true)
    decreases kids, 0
  {
    hide Parses, Layout, Meaning, Kept, Line, Body;
    if kids != [] {
      LayoutMeans(lib, kids[0], depth, fmt, Chars(CharsOf(kids[0].name)));
      MembersMean(lib, kids[1..], depth, fmt);
      assert LayoutMembers(lib, kids, depth, fmt)[1..] == LayoutMembers(lib, kids[1..], depth, fmt);
    }
  }

  /** A printed value in front of what does not go on a number is parsed to its end. */
  lemma ValueParses(lib: Lib, it: Item, depth: nat, fmt: bool, rest: seq<byte>)
    requires Parses(lib, it, depth) && Boundary(rest)
    ensures ParseValue(lib, Print(lib, it, depth, fmt, rest), depth) == Ok(Kept(it, NoString), rest)
  {
    hide ParseValue, Print, Parses, Layout, Valid, Spell, Meaning, Kept;
    PrintSpells(lib, it, depth, fmt, rest);
    LayoutValid(lib, it, depth, fmt);
    LayoutMeans(lib, it, depth, fmt, NoString);
    ValueAccepted(lib, Layout(lib, it, depth, fmt), depth, rest);
  }

  // ---- whole texts

  /**
   The round trip: the printed text, with or without its terminator, parses
   to what it keeps of the tree and is consumed to its end.
   */
  lemma TextRoundTrip(lib: Lib, it: Item, fmt: bool)
    requires Parses(lib, it, 0)
    ensures var t := Text(lib, it, 0, fmt);
            && ParseText(lib, t + [NUL], true) == Ok(Kept(it, NoString), [NUL])
            && ParseText(lib, t + [NUL], false) == Ok(Kept(it, NoString), [NUL])
            && ParseText(lib, t, false) == Ok(Kept(it, NoString), [])
  {
    hide ParseValue, Print;
    TextRest(lib, it, 0, fmt, [NUL]);
    PrintStarts(lib, it, 0, fmt, [NUL]);
    PrintStarts(lib, it, 0, fmt, []);
    ValueParses(lib, it, 0, fmt, [NUL]);
    ValueParses(lib, it, 0, fmt, []);
  }

  // ---- what parsing can produce

  /** Every container of the tree is within the nesting limit, counted from `depth`. */
  predicate Fits(it: Item, depth: nat) {
    (it.kind == Array || it.kind == Object ==> depth < NESTING_LIMIT) && FitsAll(it.kids, depth + 1)
  }

  predicate FitsAll(kids: seq<Item>, depth: nat) {
    kids == [] || (Fits(kids[0], depth) && FitsAll(kids[1..], depth))
  }

  /** Nothing in the tree that a text would not keep, and nothing too deep. */
  predicate Parsed(it: Item, depth: nat) {
    Kept(it, it.name) == it && it.kind != Invalid && it.kind != Raw && Fits(it, depth)
  }

  predicate ParsedAll(kids: seq<Item>, named: bool, depth: nat) {
    KeptAll(kids, named) == kids && FitsAll(kids, depth)
  }

  lemma {:induction false} ParsedAllAppend(kids: seq<Item>, it: Item, named: bool, depth: nat)
    requires ParsedAll(kids, named, depth) && Parsed(it, depth)
    requires it.name.Chars? == named
    ensures ParsedAll(kids + [it], named, depth)
  {
    hide Kept;
    if kids == [] {
      Empty([it]);
      assert [it][1..] == [];
    } else {
      assert (kids + [it])[1..] == kids[1..] + [it];
      assert KeptAll(kids, named)[1..] == KeptAll(kids[1..], named);
      assert KeptAll(kids, named)[0] == kids[0];
      ParsedAllAppend(kids[1..], it, named, depth);
      assert [kids[0]] + (kids[1..] + [it]) == kids + [it];
    }
  }

  lemma {:induction false} ValueParsed(lib: Lib, s: seq<byte>, depth: nat)
    requires ParseValue(lib, s, depth).Ok?
    ensures Parsed(ParseValue(lib, s, depth).value, depth)
    ensures ParseValue(lib, s, depth).value.name == NoString
    decreases |s|, 1
  {
    hide ParseArray, ParseObject, ParseString, ParseNumber;
    assert FitsAll([], depth + 1);
    if NULL_TEXT <= s || FALSE_TEXT <= s || TRUE_TEXT <= s || s[0] == QUOTE {
    } else if s[0] == MINUS || 48 <= s[0] <= 57 {
      NumberParsed(lib, s);
    } else if s[0] == LBRACKET {
      ArrayParsed(lib, s, depth);
    } else {
      ObjectParsed(lib, s, depth);
    }
  }

  lemma {:induction false} ArrayParsed(lib: Lib, s: seq<byte>, depth: nat)
    requires s != [] && s[0] == LBRACKET && ParseArray(lib, s, depth).Ok?
    ensures Parsed(ParseArray(lib, s, depth).value, depth)
    ensures ParseArray(lib, s, depth).value.name == NoString
    decreases |s|, 0
  {
    hide ParseElements;
    var first := SkipWhitespace(s[1..]);
    assert FitsAll([], depth + 1);
    if first[0] != RBRACKET { ElementsParsed(lib, first, depth + 1, []); }
  }

  lemma {:induction false} ObjectParsed(lib: Lib, s: seq<byte>, depth: nat)
    requires s != [] && s[0] == LBRACE && ParseObject(lib, s, depth).Ok?
    ensures Parsed(ParseObject(lib, s, depth).value, depth)
    ensures ParseObject(lib, s, depth).value.name == NoString
    decreases |s|, 0
  {
    hide ParseMembers;
    var first := SkipWhitespace(s[1..]);
    assert FitsAll([], depth + 1);
    if first[0] != RBRACE { MembersParsed(lib, first, depth + 1, []); }
  }

  lemma NumberParsed(lib: Lib, s: seq<byte>)
    ensures var r := ParseNumber(lib, s);
            r.Ok? ==> r.value == BLANK.(kind := Number, num := r.value.num)
  {}

  lemma {:induction false} ElementsParsed(lib: Lib, s: seq<byte>, depth: nat, done: seq<Item>)
    requires ParseElements(lib, s, depth, done).Ok? && ParsedAll(done, false, depth)
    ensures ParsedAll(ParseElements(lib, s, depth, done).value, false, depth)
    decreases |s|, 2
  {
    hide ParseValue, Kept;
    var v := ParseValue(lib, SkipWhitespace(s), depth);
    ValueParsed(lib, SkipWhitespace(s), depth);
    ParsedAllAppend(done, v.value, false, depth);
    var next := SkipWhitespace(v.rest);
    if next[0] == COMMA {
      ElementsParsed(lib, next[1..], depth, done + [v.value]);
    }
  }

  lemma {:induction false} MembersParsed(lib: Lib, s: seq<byte>, depth: nat, done: seq<Item>)
    requires s != [] && ParseMembers(lib, s, depth, done).Ok? && ParsedAll(done, true, depth)
    ensures ParsedAll(ParseMembers(lib, s, depth, done).value, true, depth)
    decreases |s|, 3
  {
    hide ParseMember, Kept;
    var v := ParseMember(lib, s, depth);
    MemberParsed(lib, s, depth);
    ParsedAllAppend(done, v.value, true, depth);
    var next := SkipWhitespace(v.rest);
    if next[0] == COMMA {
      MembersParsed(lib, next[1..], depth, done + [v.value]);
    }
  }

  lemma {:induction false} MemberParsed(lib: Lib, s: seq<byte>, depth: nat)
    requires s != [] && ParseMember(lib, s, depth).Ok?
    ensures Parsed(ParseMember(lib, s, depth).value, depth)
    ensures ParseMember(lib, s, depth).value.name.Chars?
    decreases |s|, 2
  {
    hide ParseValue, Kept, Fits, ParseString;
    var name := ParseString(SkipWhitespace(s));
    var colon := SkipWhitespace(name.rest);
    ValueParsed(lib, SkipWhitespace(colon[1..]), depth);
    Renamed(ParseValue(lib, SkipWhitespace(colon[1..]), depth).value, name.value, depth);
  }

  lemma Renamed(it: Item, name: CString, depth: nat)
    requires Parsed(it, depth)
    ensures Parsed(it.(name := name), depth)
  {}

  /**
   Parsing any text gives a tree that survives being printed and parsed again,
   if the numbers in it can be printed so that they read back.
   */
  lemma ParsePrintParse(lib: Lib, content: seq<byte>, requireNull: bool, fmt: bool)
    requires ParseText(lib, content, requireNull).Ok?
    requires Parses(lib, ParseText(lib, content, requireNull).value, 0)
    ensures var v := ParseText(lib, content, requireNull).value;
            ParseText(lib, Text(lib, v, 0, fmt) + [NUL], true) == Ok(v, [NUL])
  {
    ValueParsed(lib, SkipWhitespace(SkipBom(content)), 0);
    TextRoundTrip(lib, ParseText(lib, content, requireNull).value, fmt);
  }

  /** Integer trees of the parser's kinds within the nesting limit always parse back. */
  predicate IntTree(it: Item) {
    it.kind != Invalid && it.kind != Raw && (it.kind == Number ==> IsInt(it.num)) && IntTrees(it.kids)
  }

  predicate IntTrees(kids: seq<Item>) {
    kids == [] || (IntTree(kids[0]) && IntTrees(kids[1..]))
  }

  lemma {:induction false} IntTreeParses(lib: Lib, it: Item, depth: nat)
    requires IntTree(it) && Fits(it, depth)
    ensures Parses(lib, it, depth)
  {
    if it.kind == Number {
      IntsRender(lib, it.num.Floor);
    } else if it.kind == Array || it.kind == Object {
      IntTreesParse(lib, it.kids, depth + 1);
    }
  }

  lemma {:induction false} IntTreesParse(lib: Lib, kids: seq<Item>, depth: nat)
    requires IntTrees(kids) && FitsAll(kids, depth)
    ensures ParsesAll(lib, kids, depth)
  {
    if kids != [] {
      IntTreeParses(lib, kids[0], depth);
      IntTreesParse(lib, kids[1..], depth);
    }
  }

  /** The round trip as it is promised: an integer tree made of what texts keep comes back unchanged. */
  lemma IntTreeRoundTrip(lib: Lib, it: Item, fmt: bool)
    requires IntTree(it) && Parsed(it, 0) && it.name == NoString
    ensures var t := Text(lib, it, 0, fmt);
            && ParseText(lib, t + [NUL], true) == Ok(it, [NUL])
            && ParseText(lib, t, false) == Ok(it, [])
  {
    IntTreeParses(lib, it, 0);
    TextRoundTrip(lib, it, fmt);
  }
}
