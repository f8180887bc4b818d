/**
 JSON with comments: a text with white space and comments between its tokens
 is minified to the text without them, and so parses to what it stands for,
 if no string in it ends in a backslash.
 */
module JsonCommented {
  import opened Bytes
  import opened Seqs
  import opened Items
  import opened Numbers
  import opened Grammar
  import opened StringCodec
  import opened Json
  import opened JsonAccepted
  import S = JsonStrings
  import opened Minify
  import opened MinifyMeaning

  /** White space and comments. */
  ghost predicate Filler(w: seq<byte>) {
    exists ps: seq<Piece> :: IsFiller(ps) && Spelled(ps, []) == w
  }

  predicate IsFiller(ps: seq<Piece>) {
    forall i :: 0 <= i < |ps| ==> (ps[i].Gap? || ps[i].LineComment? || ps[i].BlockComment?) && Proper(ps[i], [])
  }

  /** Between its tokens there is only that, and where its strings end the minifier sees it. */
  ghost predicate Commented(v: Value)
    decreases v, 0
  {
    match v
    case Word(_) => true
    case Figure(text, _) => forall i :: 0 <= i < |text| ==> FigureByte(text[i])
    case Quote(body, _) => S.Closed(body) && !Backslashed(body)
    case Brackets(pad, elements) => Filler(pad) && CommentedElements(elements)
    case Braces(pad, members) => Filler(pad) && CommentedMembers(members)
  }

  ghost predicate CommentedElements(es: seq<Element>)
    decreases es, 1
  {
    es == [] || (Filler(es[0].before) && Commented(es[0].value) && Filler(es[0].behind) && CommentedElements(es[1..]))
  }

  ghost predicate CommentedMembers(ms: seq<Member>)
    decreases ms, 1
  {
    ms == [] ||
    (&& Filler(ms[0].before) && S.Closed(ms[0].key) && !Backslashed(ms[0].key)
     && Filler(ms[0].colon) && Filler(ms[0].gap) && Commented(ms[0].value) && Filler(ms[0].behind)
     && CommentedMembers(ms[1..]))
  }

  /** Nothing between the tokens. */
  function Bare(v: Value): Value
    decreases v, 0
  {
    match v
    case Brackets(_, elements) => Brackets([], BareElements(elements))
    case Braces(_, members) => Braces([], BareMembers(members))
    case _ => v
  }

  function BareElements(es: seq<Element>): (r: seq<Element>)
    ensures |r| == |es|
    decreases es, 1
  {
    if es == [] then [] else [Element([], Bare(es[0].value), [])] + BareElements(es[1..])
  }

  function BareMembers(ms: seq<Member>): (r: seq<Member>)
    ensures |r| == |ms|
    decreases ms, 1
  {
    if ms == [] then []
    else [Member([], ms[0].key, ms[0].name, [], [], Bare(ms[0].value), [])] + BareMembers(ms[1..])
  }

  // ---- what the minifier makes of the parts

  lemma {:induction false} FillerGone(ps: seq<Piece>, x: seq<byte>)
    requires IsFiller(ps)
    ensures Spelled(ps, []) + x == Spelled(ps, x) && Minified(Spelled(ps, x)) == Minified(x)
  {
    hide PieceText, Minified, Proper;
    if ps == [] {
      Empty(x);
    } else {
      FillerGone(ps[1..], x);
      FillerProper(ps[0], Spelled(ps[1..], x));
      PieceMinified(ps[0], Spelled(ps[1..], x));
      Assoc(PieceText(ps[0]), Spelled(ps[1..], []), x);
      Empty(Minified(x));
    }
  }

  lemma FillerProper(p: Piece, rest: seq<byte>)
    requires (p.Gap? || p.LineComment? || p.BlockComment?) && Proper(p, [])
    ensures Proper(p, rest)
  {}

  lemma Dropped(w: seq<byte>, x: seq<byte>)
    requires Filler(w)
    ensures Minified(w + x) == Minified(x)
  {
    hide Spelled, IsFiller, Minified;
    var ps: seq<Piece> :| IsFiller(ps) && Spelled(ps, []) == w;
    FillerGone(ps, x);
  }

  /** In a string that is closed where it ends, a quote has a backslash in front of it. */
  lemma {:induction false} ClosedEscapes(b: seq<byte>)
    requires S.Closed(b)
    ensures QuotesEscaped(b) && (b == [] || b[0] != QUOTE)
    decreases |b|
  {
    hide QuotesEscaped, Backslashed;
    if b == [] {
      NoQuotes();
    } else if b[0] == BACKSLASH {
      ClosedEscapes(b[2..]);
      PairEscapes(b[1]);
      EscapedGrow([BACKSLASH, b[1]], b[2..]);
      assert [BACKSLASH, b[1]] + b[2..] == b;
    } else {
      ClosedEscapes(b[1..]);
      ByteEscapes(b[0]);
      EscapedGrow([b[0]], b[1..]);
      assert [b[0]] + b[1..] == b;
    }
  }

  lemma NoQuotes()
    ensures QuotesEscaped([])
  {}

  lemma PairEscapes(c: byte)
    ensures QuotesEscaped([BACKSLASH, c])
  {
    assert [BACKSLASH, c][..1] == [BACKSLASH];
  }

  lemma ByteEscapes(c: byte)
    requires c != QUOTE
    ensures QuotesEscaped([c])
  {}

  lemma StringCopied(body: seq<byte>, rest: seq<byte>)
    requires S.Closed(body) && !Backslashed(body)
    ensures Minified(SpellString(body, rest)) == SpellString(body, Minified(rest))
  {
    hide Minified, InString, S.Closed, QuotesEscaped;
    ClosedEscapes(body);
    LiteralStarts(body + ([QUOTE] + rest));
    LiteralEnds(body, rest);
  }

  lemma WordsPlain(kind: Kind)
    ensures forall i :: 0 <= i < |WordText(kind)| ==> Plain(WordText(kind)[i])
  {
    WordTexts();
  }

  // ---- values

  /** Minifying takes out what is between the tokens, and nothing else. */
  lemma {:induction false} CommentsGone(v: Value, rest: seq<byte>)
    requires Commented(v)
    ensures Minified(Spell(v, rest)) == Spell(Bare(v), Minified(rest))
    decreases v, 0
  {
    hide Minified, SpellElements, SpellMembers, BareElements, BareMembers, SpellString, CommentedElements, CommentedMembers,
      Filler, S.Closed, WordText;
    match v {
      case Word(kind) =>
        WordsPlain(kind);
        CopiesPlain(WordText(kind), rest);
      case Figure(text, _) => CopiesPlain(text, rest);
      case Quote(body, _) => StringCopied(body, rest);
      case Brackets(pad, elements) =>
        var close := [RBRACKET] + rest;
        CopiesPlain([RBRACKET], rest);
        if elements == [] {
          Dropped(pad, close);
          CopiesPlain([LBRACKET], pad + close);
          Empty([RBRACKET] + Minified(rest));
        } else {
          ElementCommentsGone(elements, close);
          CopiesPlain([LBRACKET], SpellElements(elements, close));
        }
      case Braces(pad, members) =>
        var close := [RBRACE] + rest;
        CopiesPlain([RBRACE], rest);
        if members == [] {
          Dropped(pad, close);
          CopiesPlain([LBRACE], pad + close);
          Empty([RBRACE] + Minified(rest));
        } else {
          MemberCommentsGone(members, close);
          CopiesPlain([LBRACE], SpellMembers(members, close));
        }
    }
  }

  lemma {:induction false} ElementCommentsGone(es: seq<Element>, rest: seq<byte>)
    requires es != [] && CommentedElements(es)
    ensures Minified(SpellElements(es, rest)) == SpellElements(BareElements(es), Minified(rest))
    decreases es, 1
  {
    hide Minified, Spell, Bare, Commented, Filler;
    var e := es[0];
    var next := if es[1..] == [] then rest else [COMMA] + SpellElements(es[1..], rest);
    if es[1..] != [] {
      CopiesPlain([COMMA], SpellElements(es[1..], rest));
      ElementCommentsGone(es[1..], rest);
    }
    var value := Spell(e.value, e.behind + next);
    Dropped(e.before, value);
    CommentsGone(e.value, e.behind + next);
    Dropped(e.behind, next);
    BareElementFirst(es, Minified(rest), Minified(next));
  }

  lemma BareElementFirst(es: seq<Element>, rest: seq<byte>, next: seq<byte>)
    requires es != [] && next == if es[1..] == [] then rest else [COMMA] + SpellElements(BareElements(es[1..]), rest)
    ensures SpellElements(BareElements(es), rest) == Spell(Bare(es[0].value), next)
  {
    hide Spell, Bare;
    var all := BareElements(es);
    assert all[0] == Element([], Bare(es[0].value), []) && all[1..] == BareElements(es[1..]);
    Empty(next);
    Empty(Spell(Bare(es[0].value), next));
  }

  lemma {:induction false} MemberCommentsGone(ms: seq<Member>, rest: seq<byte>)
    requires ms != [] && CommentedMembers(ms)
    ensures Minified(SpellMembers(ms, rest)) == SpellMembers(BareMembers(ms), Minified(rest))
    decreases ms, 1
  {
    hide Minified, Spell, SpellString, Bare, Commented, Filler, S.Closed, Backslashed;
    var m := ms[0];
    var next := if ms[1..] == [] then rest else [COMMA] + SpellMembers(ms[1..], rest);
    if ms[1..] != [] {
      CopiesPlain([COMMA], SpellMembers(ms[1..], rest));
      MemberCommentsGone(ms[1..], rest);
    }
    var value := Spell(m.value, m.behind + next);
    Dropped(m.before, SpellString(m.key, m.colon + ([COLON] + (m.gap + value))));
    StringCopied(m.key, m.colon + ([COLON] + (m.gap + value)));
    Dropped(m.colon, [COLON] + (m.gap + value));
    CopiesPlain([COLON], m.gap + value);
    Dropped(m.gap, value);
    CommentsGone(m.value, m.behind + next);
    Dropped(m.behind, next);
    BareMemberFirst(ms, Minified(rest), Minified(next));
  }

  lemma BareMemberFirst(ms: seq<Member>, rest: seq<byte>, next: seq<byte>)
    requires ms != [] && next == if ms[1..] == [] then rest else [COMMA] + SpellMembers(BareMembers(ms[1..]), rest)
    ensures SpellMembers(BareMembers(ms), rest) == SpellString(ms[0].key, [COLON] + Spell(Bare(ms[0].value), next))
  {
    hide Spell, SpellString, Bare;
    var all := BareMembers(ms);
    assert all[0] == Member([], ms[0].key, ms[0].name, [], [], Bare(ms[0].value), []) && all[1..] == BareMembers(ms[1..]);
    Empty(next);
    Empty(Spell(Bare(ms[0].value), next));
    Empty([COLON] + Spell(Bare(ms[0].value), next));
    Empty(SpellString(ms[0].key, [COLON] + Spell(Bare(ms[0].value), next)));
  }

  // ---- what they stand for

  lemma {:induction false} BareMeans(v: Value, name: CString)
    ensures Meaning(Bare(v), name) == Meaning(v, name)
    decreases v, 0
  {
    hide ElementMeanings, MemberMeanings, BareElements, BareMembers;
    match v {
      case Brackets(_, elements) => BareElementsMean(elements);
      case Braces(_, members) => BareMembersMean(members);
      case _ =>
    }
  }

  lemma {:induction false} BareElementsMean(es: seq<Element>)
    ensures ElementMeanings(BareElements(es)) == ElementMeanings(es)
    decreases es, 1
  {
    hide Meaning, Bare;
    if es != [] {
      BareMeans(es[0].value, NoString);
      BareElementsMean(es[1..]);
      assert BareElements(es)[1..] == BareElements(es[1..]);
    }
  }

  lemma {:induction false} BareMembersMean(ms: seq<Member>)
    ensures MemberMeanings(BareMembers(ms)) == MemberMeanings(ms)
    decreases ms, 1
  {
    hide Meaning, Bare;
    if ms != [] {
      BareMeans(ms[0].value, Chars(BeforeNul(ms[0].name)));
      BareMembersMean(ms[1..]);
      assert BareMembers(ms)[1..] == BareMembers(ms[1..]);
    }
  }

  /** A text with comments, minified and parsed, is what it stands for. */
  lemma CommentedTextParses(lib: Lib, before: seq<byte>, v: Value, behind: seq<byte>)
    requires Filler(before) && Commented(v) && Filler(behind) && Valid(lib, Bare(v), 0)
    ensures Minified(before + Spell(v, behind)) == Spell(Bare(v), [])
    ensures ParseText(lib, Minified(before + Spell(v, behind)) + [0], true) == Ok(Meaning(v, NoString), [0])
  {
    hide Minified, Spell, Bare, Commented, Filler, Valid, Meaning, ParseText;
    Dropped(before, Spell(v, behind));
    CommentsGone(v, behind);
    Empty(behind);
    Dropped(behind, []);
    NothingLeft();
    BareMeans(v, NoString);
    var end: seq<byte> := [0];
    SpellRest(Bare(v), [], end);
    Empty(end);
    Empty(Spell(Bare(v), end));
    TextAccepted(lib, false, [], Bare(v), []);
  }
}
