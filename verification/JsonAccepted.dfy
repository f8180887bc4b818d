/**
 The parser against the structure of JSON texts: it accepts every such text
 with the value that it stands for, and accepts nothing else.
 */
module JsonAccepted {
  import opened Bytes
  import opened Seqs
  import opened Items
  import opened Numbers
  import opened StringCodec
  import opened Grammar
  import opened Json
  import S = JsonStrings
  import opened JsonDecoded

  // ---- white space, words and number boundaries

  lemma {:induction false} SkipRun(w: seq<byte>, x: seq<byte>)
    requires White(w) && x != [] && x[0] > 32
    ensures SkipWhitespace(w + x) == x
  {
    if w == [] {
      assert w + x == x;
    } else {
      assert (w + x)[1..] == w[1..] + x;
      SkipRun(w[1..], x);
    }
  }

  /** What is skipped. */
  lemma {:induction false} Skipped(s: seq<byte>) returns (w: seq<byte>)
    ensures White(w) && s == w + SkipWhitespace(s)
    ensures |SkipWhitespace(s)| > 1 ==> SkipWhitespace(s)[0] > 32
  {
    if |s| >= 2 && s[0] <= SPACE {
      var v := Skipped(s[1..]);
      w := [s[0]] + v;
    } else {
      w := [];
    }
  }

  lemma {:induction false} SkipTwice(s: seq<byte>)
    ensures SkipWhitespace(SkipWhitespace(s)) == SkipWhitespace(s)
  {
    if |s| >= 2 && s[0] <= SPACE {
      SkipTwice(s[1..]);
    }
  }

  /** No number goes on with what follows. */
  predicate Boundary(rest: seq<byte>) {
    rest == [] || !FigureByte(rest[0])
  }

  lemma {:induction false} SpanStops(t: seq<byte>, rest: seq<byte>)
    requires (forall i :: 0 <= i < |t| ==> FigureByte(t[i])) && Boundary(rest)
    ensures NumberSpan(t + rest) == t
  {
    if t == [] {
      assert t + rest == rest;
    } else {
      assert (t + rest)[1..] == t[1..] + rest;
      SpanStops(t[1..], rest);
      assert [t[0]] + t[1..] == t;
    }
  }

  lemma WordTexts()
    ensures WordText(Null) == NULL_TEXT && WordText(True) == TRUE_TEXT && WordText(False) == FALSE_TEXT
  {}

  /** A value starts with a byte that is neither white space nor a closing bracket. */
  lemma ValueStarts(lib: Lib, v: Value, depth: nat, rest: seq<byte>)
    requires Valid(lib, v, depth)
    ensures var t := Spell(v, rest);
            t != [] && 32 < t[0] < 0x80 && t[0] != S.Code(']') && t[0] != S.Code('}')
  {
    hide SpellElements, SpellMembers, S.Closed, S.Reads, ElementsValid, MembersValid;
    WordTexts();
  }

  // ---- every text is accepted

  lemma {:induction false} ValueAccepted(lib: Lib, v: Value, depth: nat, rest: seq<byte>)
    requires Valid(lib, v, depth) && Boundary(rest)
    ensures ParseValue(lib, Spell(v, rest), depth) == Ok(Meaning(v, NoString), rest)
    decreases v, 0
  {
    hide ParseArray, ParseObject, ParseString, SkipWhitespace, SpellElements, SpellMembers, SpellString, Strtod, S.Closed, S.Reads,
      ElementsValid, MembersValid, ElementMeanings, MemberMeanings;
    var s := Spell(v, rest);
    if !v.Word? { NoWord(lib, v, depth, rest); }
    match v {
      case Word(kind) => WordAccepted(lib, kind, depth, rest);
      case Figure(text, num) =>
        SpanStops(text, rest);
        DropPrefix(text, rest);
      case Quote(body, bytes) =>
        StringTaken(body, bytes, rest);
        QuoteStarts(body, rest);
      case Brackets(_, _) => BracketsAccepted(lib, v, depth, rest);
      case Braces(_, _) => BracesAccepted(lib, v, depth, rest);
    }
  }

  lemma QuoteStarts(body: seq<byte>, rest: seq<byte>)
    ensures SpellString(body, rest) != [] && SpellString(body, rest)[0] == QUOTE
  {}

  lemma NoWord(lib: Lib, v: Value, depth: nat, rest: seq<byte>)
    requires Valid(lib, v, depth) && !v.Word?
    ensures var s := Spell(v, rest); !(NULL_TEXT <= s) && !(TRUE_TEXT <= s) && !(FALSE_TEXT <= s)
  {
    hide SpellElements, SpellMembers, S.Closed, S.Reads, ElementsValid, MembersValid;
    var s := Spell(v, rest);
    ValueStarts(lib, v, depth, rest);
    NotPrefix(NULL_TEXT, s);
    NotPrefix(TRUE_TEXT, s);
    NotPrefix(FALSE_TEXT, s);
  }

  lemma WordAccepted(lib: Lib, kind: Kind, depth: nat, rest: seq<byte>)
    requires kind.Null? || kind.True? || kind.False?
    ensures ParseValue(lib, WordText(kind) + rest, depth) == Ok(Meaning(Word(kind), NoString), rest)
  {
    hide ParseArray, ParseObject, ParseString, ParseNumber;
    WordTexts();
    DropPrefix(WordText(kind), rest);
    if !kind.Null? { NotPrefix(NULL_TEXT, WordText(kind) + rest); }
    if !kind.False? { NotPrefix(FALSE_TEXT, WordText(kind) + rest); }
  }

  lemma {:induction false} BracketsAccepted(lib: Lib, v: Value, depth: nat, rest: seq<byte>)
    requires v.Brackets? && Valid(lib, v, depth)
    ensures Spell(v, rest) != [] && Spell(v, rest)[0] == LBRACKET
    ensures ParseArray(lib, Spell(v, rest), depth) == Ok(Meaning(v, NoString), rest)
    decreases v.elements, 3
  {
    hide ParseElements, SpellElements;
    var close := [RBRACKET] + rest;
    Cons(RBRACKET, rest);
    if v.elements == [] {
      SkipRun(v.pad, close);
      Cons(LBRACKET, v.pad + close);
    } else {
      var body := SpellElements(v.elements, close);
      Cons(LBRACKET, body);
      ElementsAccepted(lib, v.elements, depth + 1, [], rest);
      ElementsStart(lib, v.elements, depth + 1, close);
      SkipTwice(body);
      ElementsSkip(lib, body, depth + 1, []);
      Empty(ElementMeanings(v.elements));
    }
  }

  lemma ElementsStart(lib: Lib, es: seq<Element>, depth: nat, rest: seq<byte>)
    requires es != [] && ElementsValid(lib, es, depth)
    ensures var first := SkipWhitespace(SpellElements(es, rest));
            first != [] && first[0] != RBRACKET
  {
    hide Spell, Valid;
    var more := es[0].behind + if es[1..] == [] then rest else [S.Code(',')] + SpellElements(es[1..], rest);
    ValueStarts(lib, es[0].value, depth, more);
    SkipRun(es[0].before, Spell(es[0].value, more));
  }

  lemma ElementsSkip(lib: Lib, s: seq<byte>, depth: nat, done: seq<Item>)
    ensures ParseElements(lib, SkipWhitespace(s), depth, done) == ParseElements(lib, s, depth, done)
  {
    hide ParseValue;
    SkipTwice(s);
  }

  lemma {:induction false} ElementsAccepted(lib: Lib, es: seq<Element>, depth: nat, done: seq<Item>, rest: seq<byte>)
    requires es != [] && ElementsValid(lib, es, depth)
    ensures ParseElements(lib, SpellElements(es, [RBRACKET] + rest), depth, done) == Ok(done + ElementMeanings(es), rest)
    decreases es, 1
  {
    hide ParseElements, ParseValue, Spell, Valid, Meaning;
    var e, item := es[0], Meaning(es[0].value, NoString);
    var s := SpellElements(es, [RBRACKET] + rest);
    var end := if es[1..] == [] then [RBRACKET] + rest else [COMMA] + SpellElements(es[1..], [RBRACKET] + rest);
    var more := e.behind + end;
    ValueStarts(lib, e.value, depth, more);
    SkipRun(e.before, Spell(e.value, more));
    EndsThere(e.behind, end);
    ValueAccepted(lib, e.value, depth, more);
    if es[1..] == [] {
      Cons(RBRACKET, rest);
      ElementsEnd(lib, s, depth, done, item, more, rest);
      Empty([item]);
    } else {
      var next := SpellElements(es[1..], [RBRACKET] + rest);
      Cons(COMMA, next);
      ElementsGoOn(lib, s, depth, done, item, more, next);
      ElementsAccepted(lib, es[1..], depth, done + [item], rest);
      Assoc(done, [item], ElementMeanings(es[1..]));
    }
  }

  /** Behind a value, white space or the byte behind that ends a number, and the white space is skipped. */
  lemma EndsThere(w: seq<byte>, end: seq<byte>)
    requires White(w) && end != [] && end[0] > 32 && !FigureByte(end[0])
    ensures Boundary(w + end) && SkipWhitespace(w + end) == end
  {
    SkipRun(w, end);
    if w != [] { assert (w + end)[0] == w[0]; } else { assert w + end == end; }
  }

  lemma ElementsEnd(lib: Lib, s: seq<byte>, depth: nat, done: seq<Item>, item: Item, more: seq<byte>, rest: seq<byte>)
    requires ParseValue(lib, SkipWhitespace(s), depth) == Ok(item, more) && SkipWhitespace(more) == [RBRACKET] + rest
    ensures ParseElements(lib, s, depth, done) == Ok(done + [item], rest)
  {
    hide ParseValue;
    Cons(RBRACKET, rest);
  }

  lemma ElementsGoOn(lib: Lib, s: seq<byte>, depth: nat, done: seq<Item>, item: Item, more: seq<byte>, next: seq<byte>)
    requires ParseValue(lib, SkipWhitespace(s), depth) == Ok(item, more) && SkipWhitespace(more) == [COMMA] + next
    ensures ParseElements(lib, s, depth, done) == ParseElements(lib, next, depth, done + [item])
  {
    hide ParseValue;
    Cons(COMMA, next);
  }

  lemma {:induction false} BracesAccepted(lib: Lib, v: Value, depth: nat, rest: seq<byte>)
    requires v.Braces? && Valid(lib, v, depth)
    ensures Spell(v, rest) != [] && Spell(v, rest)[0] == LBRACE
    ensures ParseObject(lib, Spell(v, rest), depth) == Ok(Meaning(v, NoString), rest)
    decreases v.members, 3
  {
    hide ParseMembers, SpellMembers;
    var close := [RBRACE] + rest;
    Cons(RBRACE, rest);
    if v.members == [] {
      SkipRun(v.pad, close);
      Cons(LBRACE, v.pad + close);
    } else {
      var body := SpellMembers(v.members, close);
      Cons(LBRACE, body);
      MembersAccepted(lib, v.members, depth + 1, [], rest);
      MembersStart(v.members, close);
      SkipTwice(body);
      MembersSkip(lib, body, depth + 1, []);
      Empty(MemberMeanings(v.members));
    }
  }

  lemma MembersStart(ms: seq<Member>, rest: seq<byte>)
    requires ms != [] && White(ms[0].before)
    ensures var s := SpellMembers(ms, rest);
            s != [] && SkipWhitespace(s) != [] && SkipWhitespace(s)[0] == QUOTE
  {
    hide Spell, SpellString;
    var m := ms[0];
    var more := m.colon + ([S.Code(':')] + (m.gap +
      Spell(m.value, m.behind + if ms[1..] == [] then rest else [S.Code(',')] + SpellMembers(ms[1..], rest))));
    QuoteStarts(m.key, more);
    SkipRun(m.before, SpellString(m.key, more));
  }

  lemma MembersSkip(lib: Lib, s: seq<byte>, depth: nat, done: seq<Item>)
    requires s != []
    ensures ParseMembers(lib, SkipWhitespace(s), depth, done) == ParseMembers(lib, s, depth, done)
  {
    hide ParseValue, ParseString;
    SkipTwice(s);
  }

  lemma {:induction false} MembersAccepted(lib: Lib, ms: seq<Member>, depth: nat, done: seq<Item>, rest: seq<byte>)
    requires ms != [] && MembersValid(lib, ms, depth)
    ensures var s := SpellMembers(ms, [RBRACE] + rest);
            s != [] && ParseMembers(lib, s, depth, done) == Ok(done + MemberMeanings(ms), rest)
    decreases ms, 1
  {
    hide ParseMembers, ParseMember, Spell, SpellString, Valid, Meaning, S.Closed, S.Reads;
    var m, item := ms[0], Meaning(ms[0].value, Chars(BeforeNul(ms[0].name)));
    var s := SpellMembers(ms, [RBRACE] + rest);
    var end := if ms[1..] == [] then [RBRACE] + rest else [COMMA] + SpellMembers(ms[1..], [RBRACE] + rest);
    var more := m.behind + end;
    MembersStart(ms, [RBRACE] + rest);
    EndsThere(m.behind, end);
    MemberAccepted(lib, m, depth, more);
    if ms[1..] == [] {
      Cons(RBRACE, rest);
      MembersEnd(lib, s, depth, done, item, more, rest);
      Empty([item]);
    } else {
      var next := SpellMembers(ms[1..], [RBRACE] + rest);
      Cons(COMMA, next);
      MembersAccepted(lib, ms[1..], depth, done + [item], rest);
      MembersGoOn(lib, s, depth, done, item, more, next);
      Assoc(done, [item], MemberMeanings(ms[1..]));
    }
  }

  /** One member, and what follows its value. */
  lemma {:induction false} MemberAccepted(lib: Lib, m: Member, depth: nat, more: seq<byte>)
    requires White(m.before) && S.Closed(m.key) && S.Reads(m.key, m.name) && White(m.colon) && White(m.gap)
    requires Valid(lib, m.value, depth) && Boundary(more)
    ensures var s := m.before + SpellString(m.key, m.colon + ([S.Code(':')] + (m.gap + Spell(m.value, more))));
            s != [] && ParseMember(lib, s, depth) == Ok(Meaning(m.value, Chars(BeforeNul(m.name))), more)
    decreases m, 1
  {
    hide ParseValue, ParseString, Spell, SpellString, Valid, Meaning, S.Closed, S.Reads;
    var value := Spell(m.value, more);
    var colon := [COLON] + (m.gap + value);
    QuoteStarts(m.key, m.colon + colon);
    SkipRun(m.before, SpellString(m.key, m.colon + colon));
    StringTaken(m.key, m.name, m.colon + colon);
    SkipRun(m.colon, colon);
    Cons(COLON, m.gap + value);
    ValueStarts(lib, m.value, depth, more);
    SkipRun(m.gap, value);
    ValueAccepted(lib, m.value, depth, more);
    Named(m.value, Chars(BeforeNul(m.name)));
  }

  lemma Named(v: Value, name: CString)
    ensures Meaning(v, NoString).(name := name) == Meaning(v, name)
  {}

  lemma MembersEnd(lib: Lib, s: seq<byte>, depth: nat, done: seq<Item>, item: Item, more: seq<byte>, rest: seq<byte>)
    requires s != [] && ParseMember(lib, s, depth) == Ok(item, more) && SkipWhitespace(more) == [RBRACE] + rest
    ensures ParseMembers(lib, s, depth, done) == Ok(done + [item], rest)
  {
    hide ParseMember;
    Cons(RBRACE, rest);
  }

  lemma MembersGoOn(lib: Lib, s: seq<byte>, depth: nat, done: seq<Item>, item: Item, more: seq<byte>, next: seq<byte>)
    requires s != [] && ParseMember(lib, s, depth) == Ok(item, more) && SkipWhitespace(more) == [COMMA] + next
    requires next != []
    ensures ParseMembers(lib, s, depth, done) == ParseMembers(lib, next, depth, done + [item])
  {
    hide ParseMember;
    Cons(COMMA, next);
  }

  // ---- nothing else is accepted

  lemma {:induction false} ValueTakes(lib: Lib, s: seq<byte>, depth: nat) returns (v: Value)
    requires ParseValue(lib, s, depth).Ok? && Boundary(ParseValue(lib, s, depth).rest)
    ensures var r := ParseValue(lib, s, depth);
            Valid(lib, v, depth) && s == Spell(v, r.rest) && r.value == Meaning(v, NoString)
    decreases |s|, 1
  {
    hide ParseArray, ParseObject, ParseString, ParseNumber, SpellString, S.Closed, S.Reads;
    var r := ParseValue(lib, s, depth);
    WordTexts();
    if NULL_TEXT <= s {
      v := Word(Null);
    } else if FALSE_TEXT <= s {
      v := Word(False);
    } else if TRUE_TEXT <= s {
      v := Word(True);
    } else if s[0] == QUOTE {
      var b, bytes := StringTakes(s);
      v := Quote(b, bytes);
    } else if s[0] == MINUS || 48 <= s[0] <= 57 {
      v := FigureTakes(lib, s, depth);
    } else if s[0] == LBRACKET {
      v := BracketsTake(lib, s, depth);
    } else {
      v := BracesTake(lib, s, depth);
    }
  }

  lemma FigureTakes(lib: Lib, s: seq<byte>, depth: nat) returns (v: Value)
    requires s != [] && (s[0] == MINUS || 48 <= s[0] <= 57)
    requires ParseNumber(lib, s).Ok? && Boundary(ParseNumber(lib, s).rest)
    ensures var r := ParseNumber(lib, s);
            Valid(lib, v, depth) && s == Spell(v, r.rest) && r.value == Meaning(v, NoString)
  {
    hide Strtod;
    var span := NumberSpan(s);
    var scan := Strtod(lib, span);
    SpanIs(s);
    assert span[..|span|] == span;
    v := Figure(span, scan.value);
  }

  lemma {:induction false} SpanIs(s: seq<byte>)
    ensures NumberSpan(s) <= s && forall i :: 0 <= i < |NumberSpan(s)| ==> FigureByte(NumberSpan(s)[i])
    ensures s != [] && FigureByte(s[0]) ==> NumberSpan(s) != []
  {
    if s != [] && NumberByte(s[0]) {
      SpanIs(s[1..]);
    }
  }

  lemma {:induction false} BracketsTake(lib: Lib, s: seq<byte>, depth: nat) returns (v: Value)
    requires s != [] && s[0] == LBRACKET && ParseArray(lib, s, depth).Ok?
    ensures var r := ParseArray(lib, s, depth);
            Valid(lib, v, depth) && s == Spell(v, r.rest) && r.value == Meaning(v, NoString)
    decreases |s|, 0
  {
    hide ParseArray, ParseElements, Spell, SpellElements, Valid, ElementsValid, Meaning, ElementMeanings, White;
    var r, es := ParseArray(lib, s, depth), [];
    var pad, body, empty := ArrayForm(lib, s, depth);
    if !empty {
      es := ElementsTake(lib, body, depth + 1, []);
      Empty(ElementMeanings(es));
    }
    BracketsAre(lib, pad, es, depth, r.rest);
    v := Brackets(pad, es);
  }

  /** What an array that is accepted looks like behind its bracket. */
  lemma ArrayForm(lib: Lib, s: seq<byte>, depth: nat) returns (pad: seq<byte>, body: seq<byte>, empty: bool)
    requires s != [] && s[0] == LBRACKET && ParseArray(lib, s, depth).Ok?
    ensures depth < 1000 && s == [LBRACKET] + body && |body| < |s| && White(pad)
    ensures var r, all := ParseArray(lib, s, depth), ParseElements(lib, body, depth + 1, []);
            if empty then body == pad + ([RBRACKET] + r.rest) && r.value == Item(Array, 0.0, NoString, NoString, [])
            else all.Ok? && r == Ok(Item(Array, 0.0, NoString, NoString, all.value), all.rest)
  {
    hide ParseArray, ParseElements, SkipWhitespace, White;
    body := s[1..];
    pad := Skipped(body);
    var first := SkipWhitespace(body);
    ArrayUnfold(lib, s, body, first, depth);
    ElementsSkip(lib, body, depth + 1, []);
    HeadTail(s);
    HeadTail(first);
    empty := first[0] == RBRACKET;
  }

  lemma ArrayUnfold(lib: Lib, s: seq<byte>, body: seq<byte>, first: seq<byte>, depth: nat)
    requires s != [] && s[0] == LBRACKET && ParseArray(lib, s, depth).Ok?
    requires body == s[1..] && first == SkipWhitespace(body)
    ensures first != [] && depth < 1000
    ensures var r, all := ParseArray(lib, s, depth), ParseElements(lib, first, depth + 1, []);
            if first[0] == RBRACKET then r == Ok(Item(Array, 0.0, NoString, NoString, []), first[1..])
            else all.Ok? && r == Ok(Item(Array, 0.0, NoString, NoString, all.value), all.rest)
  {
    hide ParseElements, SkipWhitespace;
  }

  lemma BracketsAre(lib: Lib, pad: seq<byte>, es: seq<Element>, depth: nat, rest: seq<byte>)
    ensures var v := Brackets(pad, es);
            && (depth < 1000 && White(pad) && (es == [] || ElementsValid(lib, es, depth + 1)) ==> Valid(lib, v, depth))
            && Spell(v, rest) == [LBRACKET] + (if es == [] then pad + ([RBRACKET] + rest) else SpellElements(es, [RBRACKET] + rest))
            && Meaning(v, NoString) == Item(Array, 0.0, NoString, NoString, if es == [] then [] else ElementMeanings(es))
  {
    hide SpellElements;
  }

  lemma {:induction false} ElementsTake(lib: Lib, s: seq<byte>, depth: nat, done: seq<Item>) returns (es: seq<Element>)
    requires ParseElements(lib, s, depth, done).Ok?
    ensures var r := ParseElements(lib, s, depth, done);
            && es != [] && ElementsValid(lib, es, depth)
            && s == SpellElements(es, [RBRACKET] + r.rest) && r.value == done + ElementMeanings(es)
    decreases |s|, 2
  {
    hide ParseElements, ParseValue, Spell, SpellElements, Valid, ElementsValid, Meaning, ElementMeanings, White, Boundary;
    var r, more := ParseElements(lib, s, depth, done), [];
    var before, text, behind, next, last := ElementsForm(lib, s, depth, done);
    var item := ParseValue(lib, text, depth).value;
    var v := ValueTakes(lib, text, depth);
    if !last {
      more := ElementsTake(lib, next, depth, done + [item]);
      Assoc(done, [item], ElementMeanings(more));
    }
    es := [Element(before, v, behind)] + more;
    ElementFirst(lib, es[0], more, depth, [RBRACKET] + r.rest);
  }

  /** What the elements of an array that is accepted look like up to the second one. */
  lemma ElementsForm(lib: Lib, s: seq<byte>, depth: nat, done: seq<Item>)
    returns (before: seq<byte>, text: seq<byte>, behind: seq<byte>, next: seq<byte>, last: bool)
    requires ParseElements(lib, s, depth, done).Ok?
    ensures White(before) && s == before + text && |text| <= |s|
    ensures var r, v := ParseElements(lib, s, depth, done), ParseValue(lib, text, depth);
            && v.Ok? && Boundary(v.rest) && White(behind)
            && v.rest == behind + (if last then [RBRACKET] + next else [COMMA] + next) && |next| < |s|
            && r == if last then Ok(done + [v.value], next) else ParseElements(lib, next, depth, done + [v.value])
  {
    hide ParseElements, ParseValue, SkipWhitespace, White, Boundary;
    text := SkipWhitespace(s);
    before := Skipped(s);
    var v := ParseValue(lib, text, depth);
    var end := SkipWhitespace(v.rest);
    ElementsUnfold(lib, s, depth, done, v, end);
    behind := Skipped(v.rest);
    Bounded(behind, end, v.rest);
    next, last := end[1..], end[0] != COMMA;
    HeadTail(end);
  }

  lemma ElementsUnfold(lib: Lib, s: seq<byte>, depth: nat, done: seq<Item>, v: Parse<Item>, end: seq<byte>)
    requires ParseElements(lib, s, depth, done).Ok?
    requires v == ParseValue(lib, SkipWhitespace(s), depth) && end == SkipWhitespace(v.rest)
    ensures v.Ok? && end != [] && (end[0] == COMMA || end[0] == RBRACKET)
    ensures ParseElements(lib, s, depth, done) ==
            if end[0] == COMMA then ParseElements(lib, end[1..], depth, done + [v.value]) else Ok(done + [v.value], end[1..])
  {
    hide ParseValue, SkipWhitespace;
  }

  lemma HeadTail(s: seq<byte>)
    requires s != []
    ensures s == [s[0]] + s[1..]
  {}

  lemma ElementFirst(lib: Lib, e: Element, more: seq<Element>, depth: nat, rest: seq<byte>)
    ensures var es := [e] + more;
            && SpellElements(es, rest) == e.before + Spell(e.value, e.behind +
                 if more == [] then rest else [S.Code(',')] + SpellElements(more, rest))
            && ElementMeanings(es) == [Meaning(e.value, NoString)] + (if more == [] then [] else ElementMeanings(more))
            && (White(e.before) && Valid(lib, e.value, depth) && White(e.behind) && (more == [] || ElementsValid(lib, more, depth))
                ==> ElementsValid(lib, es, depth))
  {
    hide Spell, Valid, Meaning;
    var es := [e] + more;
    assert es[0] == e && es[1..] == more;
  }

  lemma Bounded(w: seq<byte>, next: seq<byte>, rest: seq<byte>)
    requires White(w) && rest == w + next
    requires next != [] && (next[0] == COMMA || next[0] == RBRACKET || next[0] == RBRACE || next[0] == NUL)
    ensures Boundary(rest)
  {
    if w != [] { assert rest[0] == w[0]; } else { assert rest == next; }
  }

  lemma {:induction false} BracesTake(lib: Lib, s: seq<byte>, depth: nat) returns (v: Value)
    requires s != [] && s[0] == LBRACE && ParseObject(lib, s, depth).Ok?
    ensures var r := ParseObject(lib, s, depth);
            Valid(lib, v, depth) && s == Spell(v, r.rest) && r.value == Meaning(v, NoString)
    decreases |s|, 0
  {
    hide ParseObject, ParseMembers, Spell, SpellMembers, Valid, MembersValid, Meaning, MemberMeanings, White;
    var r, ms := ParseObject(lib, s, depth), [];
    var pad, body, empty := ObjectForm(lib, s, depth);
    if !empty {
      ms := MembersTake(lib, body, depth + 1, []);
      Empty(MemberMeanings(ms));
    }
    BracesAre(lib, pad, ms, depth, r.rest);
    v := Braces(pad, ms);
  }

  lemma ObjectForm(lib: Lib, s: seq<byte>, depth: nat) returns (pad: seq<byte>, body: seq<byte>, empty: bool)
    requires s != [] && s[0] == LBRACE && ParseObject(lib, s, depth).Ok?
    ensures depth < 1000 && s == [LBRACE] + body && 0 < |body| < |s| && White(pad)
    ensures var r, all := ParseObject(lib, s, depth), ParseMembers(lib, body, depth + 1, []);
            if empty then body == pad + ([RBRACE] + r.rest) && r.value == Item(Object, 0.0, NoString, NoString, [])
            else all.Ok? && r == Ok(Item(Object, 0.0, NoString, NoString, all.value), all.rest)
  {
    hide ParseObject, ParseMembers, SkipWhitespace, White;
    body := s[1..];
    pad := Skipped(body);
    var first := SkipWhitespace(body);
    ObjectUnfold(lib, s, body, first, depth);
    MembersSkip(lib, body, depth + 1, []);
    HeadTail(s);
    HeadTail(first);
    empty := first[0] == RBRACE;
  }

  lemma ObjectUnfold(lib: Lib, s: seq<byte>, body: seq<byte>, first: seq<byte>, depth: nat)
    requires s != [] && s[0] == LBRACE && ParseObject(lib, s, depth).Ok?
    requires body == s[1..] && first == SkipWhitespace(body)
    ensures body != [] && first != [] && depth < 1000
    ensures var r, all := ParseObject(lib, s, depth), ParseMembers(lib, first, depth + 1, []);
            if first[0] == RBRACE then r == Ok(Item(Object, 0.0, NoString, NoString, []), first[1..])
            else all.Ok? && r == Ok(Item(Object, 0.0, NoString, NoString, all.value), all.rest)
  {
    hide ParseMembers, SkipWhitespace;
  }

  lemma BracesAre(lib: Lib, pad: seq<byte>, ms: seq<Member>, depth: nat, rest: seq<byte>)
    ensures var v := Braces(pad, ms);
            && (depth < 1000 && White(pad) && (ms == [] || MembersValid(lib, ms, depth + 1)) ==> Valid(lib, v, depth))
            && Spell(v, rest) == [LBRACE] + (if ms == [] then pad + ([RBRACE] + rest) else SpellMembers(ms, [RBRACE] + rest))
            && Meaning(v, NoString) == Item(Object, 0.0, NoString, NoString, if ms == [] then [] else MemberMeanings(ms))
  {
    hide SpellMembers;
  }

  lemma {:induction false} MembersTake(lib: Lib, s: seq<byte>, depth: nat, done: seq<Item>) returns (ms: seq<Member>)
    requires s != [] && ParseMembers(lib, s, depth, done).Ok?
    ensures var r := ParseMembers(lib, s, depth, done);
            && ms != [] && MembersValid(lib, ms, depth)
            && s == SpellMembers(ms, [RBRACE] + r.rest) && r.value == done + MemberMeanings(ms)
    decreases |s|, 3
  {
    hide ParseMembers, ParseMember, Spell, SpellString, SpellMembers, MemberMeanings, MembersValid, Valid, Meaning,
      S.Closed, S.Reads, White, Boundary;
    var r, more := ParseMembers(lib, s, depth, done), [];
    var behind, next, last := MembersForm(lib, s, depth, done);
    var item := ParseMember(lib, s, depth).value;
    var m := MemberTakes(lib, s, depth);
    if !last {
      more := MembersTake(lib, next, depth, done + [item]);
      Assoc(done, [item], MemberMeanings(more));
    }
    ms := [m.(behind := behind)] + more;
    MemberFirst(lib, ms[0], more, depth, [RBRACE] + r.rest);
  }

  lemma MembersForm(lib: Lib, s: seq<byte>, depth: nat, done: seq<Item>) returns (behind: seq<byte>, next: seq<byte>, last: bool)
    requires s != [] && ParseMembers(lib, s, depth, done).Ok?
    ensures var r, v := ParseMembers(lib, s, depth, done), ParseMember(lib, s, depth);
            && v.Ok? && Boundary(v.rest) && White(behind)
            && v.rest == behind + (if last then [RBRACE] + next else [COMMA] + next) && |next| < |s| && (!last ==> next != [])
            && r == if last then Ok(done + [v.value], next) else ParseMembers(lib, next, depth, done + [v.value])
  {
    hide ParseMembers, ParseMember, SkipWhitespace, White, Boundary;
    var v := ParseMember(lib, s, depth);
    var end := SkipWhitespace(v.rest);
    MembersUnfold(lib, s, depth, done, v, end);
    behind := Skipped(v.rest);
    Bounded(behind, end, v.rest);
    next, last := end[1..], end[0] != COMMA;
    HeadTail(end);
  }

  lemma MembersUnfold(lib: Lib, s: seq<byte>, depth: nat, done: seq<Item>, v: Parse<Item>, end: seq<byte>)
    requires s != [] && ParseMembers(lib, s, depth, done).Ok?
    requires v == ParseMember(lib, s, depth) && end == SkipWhitespace(v.rest)
    ensures v.Ok? && end != [] && (end[0] == RBRACE || (end[0] == COMMA && end[1..] != []))
    ensures ParseMembers(lib, s, depth, done) ==
            if end[0] == COMMA then ParseMembers(lib, end[1..], depth, done + [v.value]) else Ok(done + [v.value], end[1..])
  {
    hide ParseMember, SkipWhitespace;
  }

  lemma MemberFirst(lib: Lib, m: Member, more: seq<Member>, depth: nat, rest: seq<byte>)
    ensures var ms := [m] + more;
            && SpellMembers(ms, rest) == m.before + SpellString(m.key, m.colon + ([S.Code(':')] + (m.gap +
                 Spell(m.value, m.behind + if more == [] then rest else [S.Code(',')] + SpellMembers(more, rest)))))
            && MemberMeanings(ms) == [Meaning(m.value, Chars(BeforeNul(m.name)))] + (if more == [] then [] else MemberMeanings(more))
            && (White(m.before) && S.Closed(m.key) && S.Reads(m.key, m.name) && White(m.colon) && White(m.gap)
                && Valid(lib, m.value, depth) && White(m.behind) && (more == [] || MembersValid(lib, more, depth))
                ==> MembersValid(lib, ms, depth))
  {
    hide Spell, SpellString, Valid, Meaning, S.Closed, S.Reads;
    var ms := [m] + more;
    assert ms[0] == m && ms[1..] == more;
  }

  lemma {:induction false} MemberTakes(lib: Lib, s: seq<byte>, depth: nat) returns (m: Member)
    requires s != [] && ParseMember(lib, s, depth).Ok? && Boundary(ParseMember(lib, s, depth).rest)
    ensures White(m.before) && S.Closed(m.key) && S.Reads(m.key, m.name) && White(m.colon) && White(m.gap)
    ensures Valid(lib, m.value, depth)
    ensures var r := ParseMember(lib, s, depth);
            && s == m.before + SpellString(m.key, m.colon + ([S.Code(':')] + (m.gap + Spell(m.value, r.rest))))
            && r.value == Meaning(m.value, Chars(BeforeNul(m.name)))
    decreases |s|, 2
  {
    hide ParseMember, ParseValue, ParseString, Spell, SpellString, Valid, Meaning, S.Closed, S.Reads, White, Boundary;
    var before, text, between, gap, value := MemberForm(lib, s, depth);
    var key, bytes := StringTakes(text);
    var v := ValueTakes(lib, value, depth);
    Named(v, ParseString(text).value);
    m := Member(before, key, bytes, between, gap, v, []);
  }

  lemma MemberForm(lib: Lib, s: seq<byte>, depth: nat)
    returns (before: seq<byte>, text: seq<byte>, between: seq<byte>, gap: seq<byte>, value: seq<byte>)
    requires s != [] && ParseMember(lib, s, depth).Ok?
    ensures White(before) && White(between) && White(gap) && text != [] && s == before + text && |value| < |s|
    ensures var r, name, v := ParseMember(lib, s, depth), ParseString(text), ParseValue(lib, value, depth);
            && name.Ok? && name.rest == between + ([COLON] + (gap + value))
            && v.Ok? && r == Ok(v.value.(name := name.value), v.rest)
  {
    hide ParseValue, ParseString, SkipWhitespace;
    text := SkipWhitespace(s);
    var name := ParseString(text);
    var colon := SkipWhitespace(name.rest);
    before := Skipped(s);
    between := Skipped(name.rest);
    gap := Skipped(colon[1..]);
    value := SkipWhitespace(colon[1..]);
    assert colon == [COLON] + colon[1..];
  }

  // ---- whole texts

  /** A text, perhaps behind a byte order mark, with its terminator. */
  function Whole(mark: bool, before: seq<byte>, v: Value, behind: seq<byte>): seq<byte> {
    (if mark then [0xEF, 0xBB, 0xBF] else []) + (before + Spell(v, behind + [0]))
  }

  lemma {:induction false} SkipToLast(w: seq<byte>, b: byte)
    requires White(w)
    ensures SkipWhitespace(w + [b]) == [b]
  {
    if w == [] {
      assert w + [b] == [b];
    } else {
      assert (w + [b])[1..] == w[1..] + [b];
      SkipToLast(w[1..], b);
    }
  }

  /** Every JSON text is accepted for what it stands for, */
  lemma TextAccepted(lib: Lib, mark: bool, before: seq<byte>, v: Value, behind: seq<byte>)
    requires White(before) && Valid(lib, v, 0) && White(behind)
    ensures ParseText(lib, Whole(mark, before, v, behind), true) == Ok(Meaning(v, NoString), [0])
  {
    hide Spell, Valid, ParseValue, Meaning;
    var end := behind + [0];
    var value := Spell(v, end);
    ValueStarts(lib, v, 0, end);
    SkipRun(before, value);
    SpellLonger(lib, v, 0, end);
    MarkSkipped(mark, before, value);
    Bounded(behind, [0], end);
    ValueAccepted(lib, v, 0, end);
    SkipToLast(behind, 0);
  }

  /** Behind a value there is something left, so it is more than one byte. */
  lemma SpellLonger(lib: Lib, v: Value, depth: nat, rest: seq<byte>)
    requires Valid(lib, v, depth) && Boundary(rest) && rest != []
    ensures |Spell(v, rest)| > 1
  {
    hide Spell, ParseValue, Valid, Meaning;
    ValueAccepted(lib, v, depth, rest);
  }

  lemma MarkSkipped(mark: bool, before: seq<byte>, value: seq<byte>)
    requires White(before) && |value| > 1 && value[0] < 0x80
    ensures SkipBom((if mark then [0xEF, 0xBB, 0xBF] else []) + (before + value)) == before + value
  {
    var text := before + value;
    if mark {
      DropPrefix([0xEF, 0xBB, 0xBF], text);
    } else {
      Empty(text);
      assert text[0] == if before != [] then before[0] else value[0];
    }
  }

  lemma MarkTaken(content: seq<byte>) returns (mark: bool)
    ensures content == (if mark then [0xEF, 0xBB, 0xBF] else []) + SkipBom(content)
  {
    mark := SkipBom(content) != content;
  }

  /** and what is accepted is one: in particular nothing follows it but white space. */
  lemma TextTakes(lib: Lib, content: seq<byte>) returns (mark: bool, before: seq<byte>, v: Value, behind: seq<byte>)
    requires ParseText(lib, content, true).Ok?
    ensures White(before) && Valid(lib, v, 0) && White(behind) && content == Whole(mark, before, v, behind)
    ensures ParseText(lib, content, true) == Ok(Meaning(v, NoString), [0])
  {
    hide Spell, Valid, ParseValue, Meaning, SkipWhitespace, SkipBom;
    var text := SkipBom(content);
    mark := MarkTaken(content);
    before := Skipped(text);
    var value := ParseValue(lib, SkipWhitespace(text), 0);
    var end := SkipWhitespace(value.rest);
    behind := Skipped(value.rest);
    assert |end| == 1 && end[0] == NUL;
    assert end == [0];
    Bounded(behind, end, value.rest);
    v := ValueTakes(lib, SkipWhitespace(text), 0);
  }
}
