/**
 Where the parser stops in a text that is none: wherever in the nesting the
 first thing stands that cannot be there, the error is reported at it.
 */
module JsonRejected {
  import opened Bytes
  import opened Seqs
  import opened Items
  import opened Numbers
  import opened StringCodec
  import opened Grammar
  import opened Json
  import S = JsonStrings
  import opened JsonDecoded
  import opened JsonAccepted

  /** A bracket that is open, with what is complete behind it, up to where a value is due. */
  datatype Frame =
    | InArray(elements: seq<Element>, before: seq<byte>)
    | InObject(members: seq<Member>, before: seq<byte>, key: seq<byte>, name: seq<byte>, colon: seq<byte>, gap: seq<byte>)

  /** Elements with a comma behind each. */
  function LeadElements(es: seq<Element>, rest: seq<byte>): seq<byte> {
    if es == [] then rest
    else es[0].before + Spell(es[0].value, es[0].behind + ([S.Code(',')] + LeadElements(es[1..], rest)))
  }

  function LeadMembers(ms: seq<Member>, rest: seq<byte>): seq<byte> {
    if ms == [] then rest
    else
      var m := ms[0];
      m.before + SpellString(m.key, m.colon + ([S.Code(':')] + (m.gap +
        Spell(m.value, m.behind + ([S.Code(',')] + LeadMembers(ms[1..], rest))))))
  }

  function Inside(f: Frame, x: seq<byte>): seq<byte> {
    match f
    case InArray(done, before) => [S.Code('[')] + LeadElements(done, before + x)
    case InObject(done, before, key, _, colon, gap) =>
      [S.Code('{')] + LeadMembers(done, before + SpellString(key, colon + ([S.Code(':')] + (gap + x))))
  }

  /** The text from the outermost bracket on. */
  function Within(fs: seq<Frame>, x: seq<byte>): seq<byte> {
    if fs == [] then x else Inside(fs[0], Within(fs[1..], x))
  }

  ghost predicate FrameValid(lib: Lib, f: Frame, depth: nat) {
    && depth < 1000
    && match f
       case InArray(done, before) => ElementsValid(lib, done, depth + 1) && White(before)
       case InObject(done, before, key, name, colon, gap) =>
         && MembersValid(lib, done, depth + 1) && White(before) && S.Closed(key) && S.Reads(key, name)
         && White(colon) && White(gap)
  }

  ghost predicate FramesValid(lib: Lib, fs: seq<Frame>, depth: nat) {
    fs == [] || (FrameValid(lib, fs[0], depth) && FramesValid(lib, fs[1..], depth + 1))
  }

  /** Not white space, or the last byte of all, which is not skipped. */
  predicate Stays(x: seq<byte>) {
    x != [] && (x[0] > 32 || |x| == 1)
  }

  /** Where a value is due, a bracket would close an array that has no element yet. */
  predicate Due(f: Frame, x: seq<byte>) {
    f.InArray? && f.elements == [] ==> x == [] || x[0] != S.Code(']')
  }

  lemma SkipTo(w: seq<byte>, x: seq<byte>)
    requires White(w) && Stays(x)
    ensures SkipWhitespace(w + x) == x
  {
    if x[0] > 32 {
      SkipRun(w, x);
    } else {
      SkipToLast(w, x[0]);
      assert x == [x[0]];
    }
  }

  // ---- up to what cannot be there

  lemma {:induction false} ElementsLead(lib: Lib, es: seq<Element>, depth: nat, done: seq<Item>, rest: seq<byte>)
    requires ElementsValid(lib, es, depth)
    ensures ParseElements(lib, LeadElements(es, rest), depth, done)
         == ParseElements(lib, rest, depth, done + ElementMeanings(es))
    decreases |es|
  {
    hide ParseElements, ParseValue, SkipWhitespace, Spell, Valid, Meaning;
    if es == [] {
      Empty(done);
    } else {
      var e, item, next := es[0], Meaning(es[0].value, NoString), LeadElements(es[1..], rest);
      var more := e.behind + ([COMMA] + next);
      ValueStarts(lib, e.value, depth, more);
      SkipRun(e.before, Spell(e.value, more));
      EndsThere(e.behind, [COMMA] + next);
      ValueAccepted(lib, e.value, depth, more);
      ElementsGoOn(lib, LeadElements(es, rest), depth, done, item, more, next);
      ElementsLead(lib, es[1..], depth, done + [item], rest);
      Assoc(done, [item], ElementMeanings(es[1..]));
    }
  }

  lemma {:induction false} MembersLead(lib: Lib, ms: seq<Member>, depth: nat, done: seq<Item>, rest: seq<byte>)
    requires MembersValid(lib, ms, depth) && rest != []
    ensures var s := LeadMembers(ms, rest);
            s != [] && ParseMembers(lib, s, depth, done) == ParseMembers(lib, rest, depth, done + MemberMeanings(ms))
    decreases |ms|
  {
    hide ParseMembers, ParseMember, SkipWhitespace, Spell, SpellString, Valid, Meaning, S.Closed, S.Reads;
    if ms == [] {
      Empty(done);
    } else {
      var m, item := ms[0], Meaning(ms[0].value, Chars(BeforeNul(ms[0].name)));
      var s, next := LeadMembers(ms, rest), LeadMembers(ms[1..], rest);
      var more := m.behind + ([COMMA] + next);
      MembersLead(lib, ms[1..], depth, done + [item], rest);
      EndsThere(m.behind, [COMMA] + next);
      MemberAccepted(lib, m, depth, more);
      MembersGoOn(lib, s, depth, done, item, more, next);
      Assoc(done, [item], MemberMeanings(ms[1..]));
    }
  }

  /** What is first behind an opening bracket. */
  lemma ElementsDue(lib: Lib, es: seq<Element>, depth: nat, before: seq<byte>, x: seq<byte>)
    requires ElementsValid(lib, es, depth) && White(before) && Stays(x) && Due(InArray(es, before), x)
    ensures var first := SkipWhitespace(LeadElements(es, before + x));
            first != [] && first[0] != RBRACKET
  {
    hide Spell, Valid, SkipWhitespace;
    if es == [] {
      SkipTo(before, x);
    } else {
      var more := es[0].behind + ([COMMA] + LeadElements(es[1..], before + x));
      ValueStarts(lib, es[0].value, depth, more);
      SkipRun(es[0].before, Spell(es[0].value, more));
    }
  }

  lemma MembersDue(lib: Lib, ms: seq<Member>, depth: nat, before: seq<byte>, x: seq<byte>)
    requires MembersValid(lib, ms, depth) && White(before) && Stays(x) && (ms == [] ==> x[0] != RBRACE)
    ensures var first := SkipWhitespace(LeadMembers(ms, before + x));
            first != [] && first[0] != RBRACE
  {
    hide Spell, SpellString, Valid, SkipWhitespace, S.Closed, S.Reads;
    if ms == [] {
      SkipTo(before, x);
    } else {
      var m := ms[0];
      var more := m.colon + ([COLON] + (m.gap + Spell(m.value, m.behind + ([COMMA] + LeadMembers(ms[1..], before + x)))));
      QuoteStarts(m.key, more);
      SkipRun(m.before, SpellString(m.key, more));
    }
  }

  lemma ArrayFails(lib: Lib, body: seq<byte>, depth: nat, e: seq<byte>)
    requires depth < 1000 && ParseElements(lib, body, depth + 1, []) == Err(e)
    requires SkipWhitespace(body) != [] && SkipWhitespace(body)[0] != RBRACKET
    ensures ParseValue(lib, [LBRACKET] + body, depth) == Err(e)
  {
    hide ParseElements, SkipWhitespace, ParseObject, ParseString, ParseNumber;
    var s := [LBRACKET] + body;
    Cons(LBRACKET, body);
    ElementsSkip(lib, body, depth + 1, []);
    NotPrefix(NULL_TEXT, s);
    NotPrefix(TRUE_TEXT, s);
    NotPrefix(FALSE_TEXT, s);
  }

  lemma ObjectFails(lib: Lib, body: seq<byte>, depth: nat, e: seq<byte>)
    requires depth < 1000 && body != [] && ParseMembers(lib, body, depth + 1, []) == Err(e)
    requires SkipWhitespace(body) != [] && SkipWhitespace(body)[0] != RBRACE
    ensures ParseValue(lib, [LBRACE] + body, depth) == Err(e)
  {
    hide ParseMembers, SkipWhitespace, ParseArray, ParseString, ParseNumber;
    var s := [LBRACE] + body;
    Cons(LBRACE, body);
    MembersSkip(lib, body, depth + 1, []);
    NotPrefix(NULL_TEXT, s);
    NotPrefix(TRUE_TEXT, s);
    NotPrefix(FALSE_TEXT, s);
  }

  /** The failure of what stands where an element is due is the array's, */
  lemma ElementFails(lib: Lib, done: seq<Element>, before: seq<byte>, x: seq<byte>, depth: nat, e: seq<byte>)
    requires FrameValid(lib, InArray(done, before), depth) && Stays(x) && Due(InArray(done, before), x)
    requires ParseElements(lib, before + x, depth + 1, ElementMeanings(done)) == Err(e)
    ensures ParseValue(lib, Inside(InArray(done, before), x), depth) == Err(e)
  {
    hide ParseElements, ParseValue, SkipWhitespace, LeadElements, ElementsValid, White, Stays;
    ElementsLead(lib, done, depth + 1, [], before + x);
    Empty(ElementMeanings(done));
    ElementsDue(lib, done, depth + 1, before, x);
    ArrayFails(lib, LeadElements(done, before + x), depth, e);
  }

  /** and the failure of what stands where a member is due is the object's. */
  lemma MemberFails(lib: Lib, done: seq<Member>, before: seq<byte>, x: seq<byte>, depth: nat, e: seq<byte>)
    requires depth < 1000 && MembersValid(lib, done, depth + 1) && White(before)
    requires Stays(x) && (done == [] ==> x[0] != S.Code('}'))
    requires before + x != [] && ParseMembers(lib, before + x, depth + 1, MemberMeanings(done)) == Err(e)
    ensures ParseValue(lib, [S.Code('{')] + LeadMembers(done, before + x), depth) == Err(e)
  {
    hide ParseMembers, ParseValue, SkipWhitespace, LeadMembers, MembersValid, White;
    MembersLead(lib, done, depth + 1, [], before + x);
    Empty(MemberMeanings(done));
    MembersDue(lib, done, depth + 1, before, x);
    ObjectFails(lib, LeadMembers(done, before + x), depth, e);
  }

  /** What fails where a value is due, one level further in, fails here at the same place. */
  lemma ValueFails(lib: Lib, f: Frame, x: seq<byte>, depth: nat, e: seq<byte>)
    requires FrameValid(lib, f, depth) && Stays(x) && Due(f, x) && ParseValue(lib, x, depth + 1) == Err(e)
    ensures ParseValue(lib, Inside(f, x), depth) == Err(e)
  {
    hide ParseValue, SkipWhitespace, ElementsValid, MembersValid, S.Closed, S.Reads, White, Due, ParseMembers, SpellString;
    match f {
      case InArray(done, before) =>
        SkipTo(before, x);
        ElementFails(lib, done, before, x, depth, e);
      case InObject(done, before, key, name, colon, gap) =>
        var behind := [COLON] + (gap + x);
        var y := SpellString(key, colon + behind);
        QuoteStarts(key, colon + behind);
        SkipTo(before, y);
        MemberValueFails(lib, f, x, depth, e);
        MembersFail(lib, before + y, depth + 1, MemberMeanings(done), e);
        MemberFails(lib, done, before, y, depth, e);
    }
  }

  lemma MembersFail(lib: Lib, s: seq<byte>, depth: nat, items: seq<Item>, e: seq<byte>)
    requires s != [] && ParseMember(lib, s, depth) == Err(e)
    ensures ParseMembers(lib, s, depth, items) == Err(e)
  {
    hide ParseMember;
  }

  lemma MemberValueFails(lib: Lib, f: Frame, x: seq<byte>, depth: nat, e: seq<byte>)
    requires f.InObject? && FrameValid(lib, f, depth) && Stays(x) && ParseValue(lib, x, depth + 1) == Err(e)
    ensures var s := f.before + SpellString(f.key, f.colon + ([COLON] + (f.gap + x)));
            s != [] && ParseMember(lib, s, depth + 1) == Err(e)
  {
    hide ParseValue, ParseString, SkipWhitespace, SpellString, MembersValid, S.Closed, S.Reads, White;
    var behind := [COLON] + (f.gap + x);
    KeyTaken(f.before, f.key, f.name, f.colon + behind);
    SkipTo(f.colon, behind);
    Cons(COLON, f.gap + x);
    SkipTo(f.gap, x);
  }

  lemma KeyTaken(before: seq<byte>, key: seq<byte>, name: seq<byte>, rest: seq<byte>)
    requires White(before) && S.Closed(key) && S.Reads(key, name)
    ensures var s := before + SpellString(key, rest);
            s != [] && ParseString(SkipWhitespace(s)) == Ok(Chars(BeforeNul(name)), rest)
  {
    hide ParseString, SkipWhitespace, SpellString, S.Closed, S.Reads, White;
    QuoteStarts(key, rest);
    SkipTo(before, SpellString(key, rest));
    StringTaken(key, name, rest);
  }

  lemma InsideStarts(f: Frame, x: seq<byte>)
    ensures Inside(f, x) != [] && (Inside(f, x)[0] == LBRACKET || Inside(f, x)[0] == LBRACE)
  {
    hide LeadElements, LeadMembers;
  }

  // ---- whole texts

  /** However deep it stands, the failure is that of the text, and it is reported where it is. */
  lemma {:induction false} FailsWithin(lib: Lib, fs: seq<Frame>, x: seq<byte>, depth: nat, e: seq<byte>)
    requires FramesValid(lib, fs, depth) && Stays(x) && ParseValue(lib, x, depth + |fs|) == Err(e)
    requires fs != [] ==> Due(fs[|fs| - 1], x)
    ensures ParseValue(lib, Within(fs, x), depth) == Err(e) && Stays(Within(fs, x))
    decreases |fs|
  {
    hide ParseValue, FrameValid, Inside;
    if fs != [] {
      var inner := Within(fs[1..], x);
      if |fs| > 1 { InsideStarts(fs[1], Within(fs[1..][1..], x)); }
      FailsWithin(lib, fs[1..], x, depth + 1, e);
      ValueFails(lib, fs[0], inner, depth, e);
      InsideStarts(fs[0], inner);
    }
  }

  lemma TextFails(lib: Lib, before: seq<byte>, fs: seq<Frame>, x: seq<byte>, requireNull: bool, e: seq<byte>)
    requires White(before) && FramesValid(lib, fs, 0) && Stays(x) && ParseValue(lib, x, |fs|) == Err(e)
    requires if fs != [] then Due(fs[|fs| - 1], x) else x[0] != 0xEF
    ensures ParseText(lib, before + Within(fs, x), requireNull) == Err(e)
  {
    hide ParseValue, FramesValid, SkipWhitespace, White;
    FailsWithin(lib, fs, x, 0, e);
    var t := Within(fs, x);
    if fs != [] { InsideStarts(fs[0], Within(fs[1..], x)); }
    SkipTo(before, t);
    NoMark(before, t);
  }

  lemma NoMark(before: seq<byte>, t: seq<byte>)
    requires White(before) && t != [] && t[0] != 0xEF
    ensures before + t != [] && SkipBom(before + t) == before + t
  {
    var s := before + t;
    assert s[0] == if before != [] then before[0] else t[0];
  }

  // ---- what cannot be there

  /** What a value may begin with. */
  predicate Begins(x: seq<byte>) {
    || S.Ascii("null") <= x || S.Ascii("true") <= x || S.Ascii("false") <= x
    || (x != [] && (x[0] == S.Code('"') || x[0] == S.Code('-') || S.Code('0') <= x[0] <= S.Code('9')
                    || x[0] == S.Code('[') || x[0] == S.Code('{')))
  }

  /** No value. */
  lemma NoValue(lib: Lib, x: seq<byte>, depth: nat)
    requires !Begins(x)
    ensures ParseValue(lib, x, depth) == Err(x)
  {
    WordTexts();
  }

  /** A bracket too many. */
  lemma TooDeep(lib: Lib, x: seq<byte>, depth: nat)
    requires depth >= 1000 && x != [] && (x[0] == S.Code('[') || x[0] == S.Code('{'))
    ensures ParseValue(lib, x, depth) == Err(x)
  {
    NotPrefix(NULL_TEXT, x);
    NotPrefix(TRUE_TEXT, x);
    NotPrefix(FALSE_TEXT, x);
  }

  predicate Closes(f: Frame, b: byte) {
    b == if f.InArray? then S.Code(']') else S.Code('}')
  }

  /** Behind a value in a bracket, neither a comma nor the closing one. */
  lemma NoComma(lib: Lib, f: Frame, v: Value, behind: seq<byte>, x: seq<byte>, depth: nat)
    requires FrameValid(lib, f, depth) && Valid(lib, v, depth + 1) && White(behind)
    requires Stays(x) && x[0] != S.Code(',') && !Closes(f, x[0]) && Boundary(behind + x)
    ensures ParseValue(lib, Inside(f, Spell(v, behind + x)), depth) == Err(x)
  {
    hide ParseValue, ParseString, SkipWhitespace, ElementsValid, MembersValid, Valid, Spell, SpellString, Meaning,
      S.Closed, S.Reads, White, Boundary, ParseMembers, ParseMember;
    var more := behind + x;
    var value := Spell(v, more);
    ValueStarts(lib, v, depth + 1, more);
    ValueAccepted(lib, v, depth + 1, more);
    SkipTo(behind, x);
    match f {
      case InArray(done, before) =>
        SkipTo(before, value);
        ElementFails(lib, done, before, value, depth, x);
      case InObject(done, before, key, name, colon, gap) =>
        var y := SpellString(key, colon + ([COLON] + (gap + value)));
        QuoteStarts(key, colon + ([COLON] + (gap + value)));
        NoWhite();
        MemberAccepted(lib, Member(before, key, name, colon, gap, v, []), depth + 1, more);
        MembersStop(lib, before + y, depth + 1, MemberMeanings(done), x);
        MemberFails(lib, done, before, y, depth, x);
    }
  }

  lemma NoWhite()
    ensures White([])
  {}

  lemma MembersStop(lib: Lib, s: seq<byte>, depth: nat, items: seq<Item>, x: seq<byte>)
    requires s != [] && x != [] && x[0] != COMMA && x[0] != RBRACE
    requires var r := ParseMember(lib, s, depth); r.Ok? && SkipWhitespace(r.rest) == x
    ensures ParseMembers(lib, s, depth, items) == Err(x)
  {
    hide ParseMember, SkipWhitespace;
  }

  /** Where a member is due, no key: the byte that is there in place of its quote has been passed. */
  lemma NoKey(lib: Lib, done: seq<Member>, before: seq<byte>, x: seq<byte>, depth: nat)
    requires depth < 1000 && MembersValid(lib, done, depth + 1) && White(before)
    requires Stays(x) && x[0] != S.Code('"') && (done == [] ==> x[0] != S.Code('}'))
    ensures ParseValue(lib, [S.Code('{')] + LeadMembers(done, before + x), depth) == Err(x[1..])
  {
    hide ParseValue, SkipWhitespace, LeadMembers, MembersValid, White, ParseMembers;
    SkipTo(before, x);
    assert ParseMember(lib, before + x, depth + 1) == Err(x[1..]);
    MembersFail(lib, before + x, depth + 1, MemberMeanings(done), x[1..]);
    MemberFails(lib, done, before, x, depth, x[1..]);
  }

  /** Behind a key, no colon. */
  lemma NoColon(lib: Lib, done: seq<Member>, before: seq<byte>, key: seq<byte>, name: seq<byte>, colon: seq<byte>,
                x: seq<byte>, depth: nat)
    requires depth < 1000 && MembersValid(lib, done, depth + 1) && White(before)
    requires S.Closed(key) && S.Reads(key, name) && White(colon) && Stays(x) && x[0] != S.Code(':')
    ensures ParseValue(lib, [S.Code('{')] + LeadMembers(done, before + SpellString(key, colon + x)), depth) == Err(x)
  {
    hide ParseValue, ParseString, SkipWhitespace, LeadMembers, MembersValid, White, ParseMembers, SpellString, S.Closed, S.Reads;
    var y := SpellString(key, colon + x);
    QuoteStarts(key, colon + x);
    KeyTaken(before, key, name, colon + x);
    SkipTo(colon, x);
    assert ParseMember(lib, before + y, depth + 1) == Err(x);
    MembersFail(lib, before + y, depth + 1, MemberMeanings(done), x);
    MemberFails(lib, done, before, y, depth, x);
  }

  /** A quote and no other that closes the string: the position is behind the quote. */
  lemma NoQuote(lib: Lib, s: seq<byte>, depth: nat)
    requires forall n :: 0 <= n < |s| && s[n] == S.Code('"') ==> !S.Closed(s[..n])
    ensures ParseValue(lib, [S.Code('"')] + s, depth) == Err(s)
  {
    hide FindClose, S.Closed;
    var t := [QUOTE] + s;
    Cons(QUOTE, s);
    NotPrefix(NULL_TEXT, t);
    NotPrefix(TRUE_TEXT, t);
    NotPrefix(FALSE_TEXT, t);
    if FindClose(s).Close? {
      FoundIsClosed(s);
    }
  }

  /** At the front of `b` there is nothing that a string may hold. */
  ghost predicate NoUnit(b: seq<byte>) {
    && b != [] && b != S.Ascii("\\")
    && forall n: nat, bytes: seq<byte> :: n <= |b| ==> !S.Lax(S.Unit(b[..n], bytes))
  }

  /** A backslash that starts no escape: the position is that backslash. */
  lemma NoEscape(lib: Lib, us: seq<S.Unit>, b: seq<byte>, rest: seq<byte>, depth: nat)
    requires S.AllLax(us) && NoUnit(b) && S.Closed(S.Texts(us) + b)
    ensures ParseValue(lib, SpellString(S.Texts(us) + b, rest), depth) == Err(b + ([S.Code('"')] + rest))
  {
    hide FindClose, Decode, DecodeStep, S.Closed, S.AllLax, S.Texts, S.Meant, NoUnit, ParseString;
    var body := S.Texts(us) + b;
    var t := SpellString(body, rest);
    Cons(QUOTE, body + ([QUOTE] + rest));
    NotPrefix(NULL_TEXT, t);
    NotPrefix(TRUE_TEXT, t);
    NotPrefix(FALSE_TEXT, t);
    UnitsDecode(us, b);
    BadAtOnce(b);
    StringFails(body, |S.Texts(us)|, rest);
    Assoc(S.Texts(us), b, [QUOTE] + rest);
    DropPrefix(S.Texts(us), b + ([QUOTE] + rest));
  }

  lemma StringFails(body: seq<byte>, at: nat, rest: seq<byte>)
    requires S.Closed(body) && Decode(body) == Bad(at)
    ensures ParseString(SpellString(body, rest)) == Err((body + ([QUOTE] + rest))[at..])
  {
    hide FindClose, Decode, S.Closed;
    Cons(QUOTE, body + ([QUOTE] + rest));
    ClosedIsFound(body, rest);
    DropPrefix(body, [QUOTE] + rest);
  }

  lemma BadAtOnce(b: seq<byte>)
    requires NoUnit(b)
    ensures Decode(b) == Bad(0)
  {
    hide DecodeStep, S.Lax;
    if DecodeStep(b).Step? {
      if DecodeStep(b).used <= |b| {
        TurnIsUnit(b);
      } else {
        TurnIsLone(b);
        LoneBackslash();
      }
      assert false;
    }
  }

  /** Behind the text, if its end is required, anything but white space. */
  lemma NoEnd(lib: Lib, before: seq<byte>, v: Value, behind: seq<byte>, x: seq<byte>)
    requires White(before) && Valid(lib, v, 0) && White(behind) && Boundary(behind + x)
    requires Stays(x) && x[0] != 0
    ensures ParseText(lib, before + Spell(v, behind + x), true) == Err(x)
  {
    hide ParseValue, SkipWhitespace, Valid, Spell, Meaning, White, Boundary;
    var t := Spell(v, behind + x);
    ValueStarts(lib, v, 0, behind + x);
    ValueAccepted(lib, v, 0, behind + x);
    SkipTo(before, t);
    NoMark(before, t);
    SkipTo(behind, x);
  }
}
