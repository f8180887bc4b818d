/**
 What the minifier keeps, for every text: texts are cut into pieces, and some
 of the pieces are kept. Characters stand for themselves, and nothing here is
 taken from the minifier.
 */
module MinifyMeaning {
  import opened Bytes
  import opened Seqs
  import S = JsonStrings
  import opened Minify

  /** Comments and literals by what stands between their marks. */
  datatype Piece =
    | Gap(b: byte)
    | LineComment(inner: seq<byte>)
    | BlockComment(inner: seq<byte>)
    | LoneSlash
    | Literal(inner: seq<byte>)
    | Other(b: byte)

  function PieceText(p: Piece): seq<byte> {
    match p
    case Gap(b) => [b]
    case LineComment(inner) => S.Ascii("//") + inner + S.Ascii("\n")
    case BlockComment(inner) => S.Ascii("/*") + inner + S.Ascii("*/")
    case LoneSlash => S.Ascii("/")
    case Literal(inner) => S.Ascii("\"") + inner + S.Ascii("\"")
    case Other(b) => [b]
  }

  predicate IsBlank(b: byte) {
    b == S.Code(' ') || b == S.Code('\t') || b == S.Code('\n') || b == S.Code('\r')
  }

  /** In front of `rest` it is that piece, and no other cut is possible there. */
  predicate Proper(p: Piece, rest: seq<byte>) {
    match p
    case Gap(b) => IsBlank(b)
    case LineComment(inner) => S.Code('\n') !in inner
    case BlockComment(inner) => NoEnd(inner, inner + S.Ascii("*/"))
    case LoneSlash => rest == [] || (rest[0] != S.Code('/') && rest[0] != S.Code('*'))
    case Literal(inner) => QuotesEscaped(inner) && !Backslashed(inner)
    case Other(b) => !IsBlank(b) && b != S.Code('/') && b != S.Code('"')
  }

  /** A star and a slash. */
  predicate EndsAt(s: seq<byte>, i: nat) {
    i + 1 < |s| && s[i] == S.Code('*') && s[i + 1] == S.Code('/')
  }

  /** No comment ends in `s` in front of the end of `inner`. */
  predicate NoEnd(inner: seq<byte>, s: seq<byte>) {
    forall i: nat :: i < |inner| ==> !EndsAt(s, i)
  }

  /** As the minifier has it: a quote belongs to the literal if there is a backslash in front of it, escaped itself or not. */
  predicate QuotesEscaped(inner: seq<byte>) {
    forall i :: 0 <= i < |inner| && inner[i] == S.Code('"') ==> Backslashed(inner[..i])
  }

  predicate Backslashed(s: seq<byte>) {
    s != [] && s[|s| - 1] == S.Code('\\')
  }

  predicate Kept(p: Piece) {
    p.Literal? || p.Other?
  }

  function Spelled(ps: seq<Piece>, rest: seq<byte>): seq<byte> {
    if ps == [] then rest else PieceText(ps[0]) + Spelled(ps[1..], rest)
  }

  predicate AllProper(ps: seq<Piece>, rest: seq<byte>) {
    ps == [] || (Proper(ps[0], Spelled(ps[1..], rest)) && AllProper(ps[1..], rest))
  }

  function KeptText(ps: seq<Piece>): seq<byte> {
    if ps == [] then [] else (if Kept(ps[0]) then PieceText(ps[0]) else []) + KeptText(ps[1..])
  }

  // ---- one piece

  lemma Marks()
    ensures S.Ascii("//") == [SLASH, SLASH] && S.Ascii("/*") == [SLASH, STAR] && S.Ascii("*/") == [STAR, SLASH]
    ensures S.Ascii("/") == [SLASH] && S.Ascii("\"") == [QUOTE] && S.Ascii("\n") == [NEWLINE]
  {}

  lemma {:induction false} LineEnds(inner: seq<byte>, rest: seq<byte>)
    requires NEWLINE !in inner
    ensures AfterLine(inner + ([NEWLINE] + rest)) == rest
  {
    var s := inner + ([NEWLINE] + rest);
    if inner == [] {
      assert s == [NEWLINE] + rest;
    } else {
      assert s[1..] == inner[1..] + ([NEWLINE] + rest);
      LineEnds(inner[1..], rest);
    }
  }

  lemma {:induction false} BlockEnds(inner: seq<byte>, rest: seq<byte>)
    requires NoEnd(inner, inner + [STAR, SLASH])
    ensures AfterComment(inner + ([STAR, SLASH] + rest)) == rest
  {
    var s := inner + ([STAR, SLASH] + rest);
    if inner == [] {
      assert s == [STAR, SLASH] + rest && s[2..] == rest;
    } else {
      BlockShrinks(inner);
      assert s[1..] == inner[1..] + ([STAR, SLASH] + rest);
      BlockEnds(inner[1..], rest);
      var t := inner + [STAR, SLASH];
      assert !EndsAt(t, 0) && t[0] == s[0] && t[1] == s[1];
    }
  }

  lemma BlockShrinks(inner: seq<byte>)
    requires inner != [] && NoEnd(inner, inner + [STAR, SLASH])
    ensures NoEnd(inner[1..], inner[1..] + [STAR, SLASH])
  {
    var t, u := inner + [STAR, SLASH], inner[1..] + [STAR, SLASH];
    assert t[1..] == u;
    forall i: nat | i < |inner[1..]| ensures !EndsAt(u, i) {
      assert !EndsAt(t, i + 1);
    }
  }

  /** Up to its end a literal is copied. */
  lemma {:induction false} LiteralEnds(inner: seq<byte>, rest: seq<byte>)
    requires QuotesEscaped(inner) && !Backslashed(inner)
    ensures InString(inner + ([QUOTE] + rest)) == inner + ([QUOTE] + Minified(rest))
    decreases |inner|
  {
    hide Minified;
    var s := inner + ([QUOTE] + rest);
    var end := [QUOTE] + Minified(rest);
    if inner == [] {
      assert s == [QUOTE] + rest;
      Empty(end);
    } else if inner[0] == BACKSLASH && |inner| > 1 && inner[1] == QUOTE {
      EscapedShrink(inner, 2);
      assert s[2..] == inner[2..] + ([QUOTE] + rest);
      LiteralEnds(inner[2..], rest);
      assert [BACKSLASH, QUOTE] + (inner[2..] + end) == inner + end;
    } else {
      assert inner[0] != QUOTE by { assert inner[..0] == []; }
      EscapedShrink(inner, 1);
      assert s[1..] == inner[1..] + ([QUOTE] + rest);
      LiteralEnds(inner[1..], rest);
      assert [inner[0]] + (inner[1..] + end) == inner + end;
    }
  }

  /** Dropping what ends in a quote, or has no quote behind it, keeps the rest a literal's text. */
  lemma EscapedShrink(inner: seq<byte>, n: nat)
    requires n <= |inner| && QuotesEscaped(inner) && 0 < n
    requires inner[n - 1] != BACKSLASH || n == |inner| || inner[n] != QUOTE
    ensures QuotesEscaped(inner[n..]) && (Backslashed(inner[n..]) ==> Backslashed(inner))
  {
    var t := inner[n..];
    forall i | 0 <= i < |t| && t[i] == QUOTE ensures Backslashed(t[..i]) {
      assert Backslashed(inner[..n + i]);
      assert i > 0;
      assert t[..i] == inner[n..n + i];
    }
  }

  lemma PieceMinified(p: Piece, rest: seq<byte>)
    requires Proper(p, rest)
    ensures Minified(PieceText(p) + rest) == (if Kept(p) then PieceText(p) else []) + Minified(rest)
  {
    hide Minified, InString, AfterLine, AfterComment, QuotesEscaped, Backslashed, NoEnd;
    Marks();
    Empty(Minified(rest));
    match p {
      case Gap(b) => OneByte(b, rest);
      case Other(b) => OneByte(b, rest);
      case LoneSlash => SlashDropped(rest);
      case LineComment(inner) =>
        Joined([SLASH, SLASH], inner, [NEWLINE], rest);
        CommentStarts(SLASH, inner + ([NEWLINE] + rest));
        LineEnds(inner, rest);
      case BlockComment(inner) =>
        Joined([SLASH, STAR], inner, [STAR, SLASH], rest);
        CommentStarts(STAR, inner + ([STAR, SLASH] + rest));
        BlockEnds(inner, rest);
      case Literal(inner) =>
        Joined([QUOTE], inner, [QUOTE], rest);
        LiteralStarts(inner + ([QUOTE] + rest));
        LiteralEnds(inner, rest);
        Joined([QUOTE], inner, [QUOTE], Minified(rest));
    }
  }

  lemma Joined(a: seq<byte>, b: seq<byte>, c: seq<byte>, rest: seq<byte>)
    ensures a + b + c + rest == a + (b + (c + rest))
  {}

  lemma OneByte(b: byte, rest: seq<byte>)
    requires b != SLASH && b != QUOTE
    ensures Minified([b] + rest) == if IsBlank(b) then Minified(rest) else [b] + Minified(rest)
  {
    Cons(b, rest);
  }

  lemma SlashDropped(rest: seq<byte>)
    requires rest == [] || (rest[0] != SLASH && rest[0] != STAR)
    ensures Minified([SLASH] + rest) == Minified(rest)
  {
    Cons(SLASH, rest);
  }

  lemma CommentStarts(b: byte, s: seq<byte>)
    requires b == SLASH || b == STAR
    ensures Minified([SLASH, b] + s) == Minified(if b == SLASH then AfterLine(s) else AfterComment(s))
  {
    hide AfterLine, AfterComment;
    Pair(SLASH, b, s);
  }

  lemma LiteralStarts(s: seq<byte>)
    ensures Minified([QUOTE] + s) == [QUOTE] + InString(s)
  {
    Cons(QUOTE, s);
  }

  /** Of pieces in front of any text the minifier drops the white space, the comments and the lone slashes, and keeps the others. */
  lemma {:induction false} PiecesMinified(ps: seq<Piece>, rest: seq<byte>)
    requires AllProper(ps, rest)
    ensures Minified(Spelled(ps, rest)) == KeptText(ps) + Minified(rest)
  {
    hide PieceText, Proper, Minified;
    if ps == [] {
      Empty(Minified(rest));
    } else {
      PiecesMinified(ps[1..], rest);
      PieceMinified(ps[0], Spelled(ps[1..], rest));
      Assoc(if Kept(ps[0]) then PieceText(ps[0]) else [], KeptText(ps[1..]), Minified(rest));
    }
  }

  // ---- texts that end inside a piece

  /** What a text may end in: nothing, or the start of a comment or literal that does not end. */
  datatype End = Complete | OpenLine(inner: seq<byte>) | OpenBlock(inner: seq<byte>) | OpenLiteral(inner: seq<byte>)

  function EndText(e: End): seq<byte> {
    match e
    case Complete => []
    case OpenLine(inner) => S.Ascii("//") + inner
    case OpenBlock(inner) => S.Ascii("/*") + inner
    case OpenLiteral(inner) => S.Ascii("\"") + inner
  }

  predicate ProperEnd(e: End) {
    match e
    case Complete => true
    case OpenLine(inner) => S.Code('\n') !in inner
    case OpenBlock(inner) => NoEnd(inner, inner)
    case OpenLiteral(inner) => QuotesEscaped(inner)
  }

  function KeptEnd(e: End): seq<byte> {
    if e.OpenLiteral? then EndText(e) else []
  }

  lemma {:induction false} LineOpen(inner: seq<byte>)
    requires NEWLINE !in inner
    ensures AfterLine(inner) == []
  {
    if inner != [] { LineOpen(inner[1..]); }
  }

  lemma {:induction false} BlockOpen(inner: seq<byte>)
    requires NoEnd(inner, inner)
    ensures AfterComment(inner) == []
  {
    if inner != [] {
      forall i: nat | i < |inner[1..]| ensures !EndsAt(inner[1..], i) {
        assert !EndsAt(inner, i + 1);
      }
      assert !EndsAt(inner, 0);
      BlockOpen(inner[1..]);
    }
  }

  lemma {:induction false} LiteralOpen(inner: seq<byte>)
    requires QuotesEscaped(inner)
    ensures InString(inner) == inner
    decreases |inner|
  {
    hide Minified;
    if inner == [] {
    } else if inner[0] == BACKSLASH && |inner| > 1 && inner[1] == QUOTE {
      EscapedShrink(inner, 2);
      LiteralOpen(inner[2..]);
      assert [BACKSLASH, QUOTE] + inner[2..] == inner;
    } else {
      assert inner[0] != QUOTE by { assert inner[..0] == []; }
      EscapedShrink(inner, 1);
      LiteralOpen(inner[1..]);
      assert [inner[0]] + inner[1..] == inner;
    }
  }

  lemma EndMinified(e: End)
    requires ProperEnd(e)
    ensures Minified(EndText(e)) == KeptEnd(e)
  {
    hide Minified, InString, AfterLine, AfterComment, QuotesEscaped, NoEnd;
    Marks();
    NothingLeft();
    match e {
      case Complete =>
      case OpenLine(inner) =>
        CommentStarts(SLASH, inner);
        LineOpen(inner);
      case OpenBlock(inner) =>
        CommentStarts(STAR, inner);
        BlockOpen(inner);
      case OpenLiteral(inner) =>
        LiteralStarts(inner);
        LiteralOpen(inner);
    }
  }

  /** What the minifier makes of a text that is cut into pieces, */
  lemma TextMinified(ps: seq<Piece>, e: End)
    requires AllProper(ps, EndText(e)) && ProperEnd(e)
    ensures Minified(Spelled(ps, EndText(e))) == KeptText(ps) + KeptEnd(e)
  {
    PiecesMinified(ps, EndText(e));
    EndMinified(e);
  }

  // ---- every text can be cut

  lemma {:induction false} CutLine(s: seq<byte>) returns (inner: seq<byte>, open: bool)
    ensures NEWLINE !in inner
    ensures if open then s == inner else s == inner + ([NEWLINE] + AfterLine(s)) && |AfterLine(s)| < |s|
  {
    if s == [] {
      inner, open := [], true;
    } else if s[0] == NEWLINE {
      inner, open := [], false;
      assert s == [] + ([NEWLINE] + s[1..]);
    } else {
      inner, open := CutLine(s[1..]);
      inner := [s[0]] + inner;
      if !open { assert s == inner + ([NEWLINE] + AfterLine(s[1..])); }
    }
  }

  lemma {:induction false} CutBlock(s: seq<byte>) returns (inner: seq<byte>, open: bool)
    ensures if open then s == inner && NoEnd(inner, inner)
            else s == inner + ([STAR, SLASH] + AfterComment(s)) && |AfterComment(s)| < |s|
                 && NoEnd(inner, inner + [STAR, SLASH])
  {
    if s == [] {
      inner, open := [], true;
    } else if |s| > 1 && s[0] == STAR && s[1] == SLASH {
      inner, open := [], false;
      assert s == [] + ([STAR, SLASH] + s[2..]);
    } else {
      var behind;
      behind, open := CutBlock(s[1..]);
      inner := [s[0]] + behind;
      if open {
        BlockGrows(s[0], behind, behind);
      } else {
        assert s == inner + ([STAR, SLASH] + AfterComment(s[1..]));
        assert inner + [STAR, SLASH] == [s[0]] + (behind + [STAR, SLASH]);
        BlockGrows(s[0], behind, behind + [STAR, SLASH]);
      }
    }
  }

  lemma BlockGrows(b: byte, inner: seq<byte>, s: seq<byte>)
    requires NoEnd(inner, s) && inner <= s
    requires s == [] || b != STAR || s[0] != SLASH
    ensures NoEnd([b] + inner, [b] + s)
  {
    var t := [b] + s;
    forall i: nat | i < |[b] + inner| ensures !EndsAt(t, i) {
      if i > 0 { assert !EndsAt(s, i - 1); }
    }
  }

  lemma {:induction false} CutLiteral(s: seq<byte>) returns (inner: seq<byte>, rest: seq<byte>, open: bool)
    ensures QuotesEscaped(inner)
    ensures if open then s == inner else s == inner + ([QUOTE] + rest) && |rest| < |s| && !Backslashed(inner)
    decreases |s|
  {
    rest := [];
    if s == [] {
      inner, open := [], true;
    } else if s[0] == QUOTE {
      inner, rest, open := [], s[1..], false;
      assert s == [] + ([QUOTE] + rest);
    } else if |s| > 1 && s[0] == BACKSLASH && s[1] == QUOTE {
      var behind;
      behind, rest, open := CutLiteral(s[2..]);
      inner := [BACKSLASH, QUOTE] + behind;
      EscapedGrow([BACKSLASH, QUOTE], behind);
      assert s == [BACKSLASH, QUOTE] + s[2..];
    } else {
      var behind;
      behind, rest, open := CutLiteral(s[1..]);
      inner := [s[0]] + behind;
      EscapedGrow([s[0]], behind);
      assert s == [s[0]] + s[1..];
    }
  }

  lemma EscapedGrow(t: seq<byte>, inner: seq<byte>)
    requires QuotesEscaped(inner) && QuotesEscaped(t) && t != []
    ensures QuotesEscaped(t + inner)
    ensures Backslashed(t + inner) <==> if inner == [] then Backslashed(t) else Backslashed(inner)
  {
    var s := t + inner;
    forall i | 0 <= i < |s| && s[i] == QUOTE ensures Backslashed(s[..i]) {
      if i < |t| {
        assert s[..i] == t[..i];
      } else {
        assert Backslashed(inner[..i - |t|]);
        assert s[..i] == t + inner[..i - |t|];
      }
    }
  }

  /** and every text is one that can be cut. */
  lemma {:induction false} Cut(text: seq<byte>) returns (ps: seq<Piece>, e: End)
    ensures AllProper(ps, EndText(e)) && ProperEnd(e) && Spelled(ps, EndText(e)) == text
    decreases |text|
  {
    hide PieceText, Proper, ProperEnd;
    if text == [] {
      ps, e := [], Complete;
      NothingOpen();
    } else {
      var p, rest, open;
      p, rest, e, open := CutFront(text);
      if open {
        ps := [];
      } else {
        var more;
        more, e := Cut(rest);
        ps := [p] + more;
        assert ps[1..] == more;
      }
    }
  }

  lemma NothingOpen()
    ensures EndText(Complete) == [] && ProperEnd(Complete)
  {}

  lemma CutFront(text: seq<byte>) returns (p: Piece, rest: seq<byte>, e: End, open: bool)
    requires text != []
    ensures if open then ProperEnd(e) && EndText(e) == text
            else Proper(p, rest) && PieceText(p) + rest == text && |rest| < |text|
  {
    hide QuotesEscaped, Backslashed, NoEnd, AfterLine, AfterComment;
    Marks();
    p, rest, e, open := LoneSlash, text[1..], Complete, false;
    assert text == [text[0]] + rest;
    if IsBlank(text[0]) {
      p := Gap(text[0]);
    } else if text[0] == QUOTE {
      var inner;
      inner, rest, open := CutLiteral(rest);
      p, e := Literal(inner), OpenLiteral(inner);
      Joined([QUOTE], inner, [QUOTE], rest);
    } else if text[0] != SLASH {
      p := Other(text[0]);
    } else if |text| > 1 && text[1] == SLASH {
      var inner;
      inner, open := CutLine(text[2..]);
      rest := AfterLine(text[2..]);
      p, e := LineComment(inner), OpenLine(inner);
      Joined([SLASH, SLASH], inner, [NEWLINE], rest);
      assert text == [SLASH, SLASH] + text[2..];
    } else if |text| > 1 && text[1] == STAR {
      var inner;
      inner, open := CutBlock(text[2..]);
      rest := AfterComment(text[2..]);
      p, e := BlockComment(inner), OpenBlock(inner);
      Joined([SLASH, STAR], inner, [STAR, SLASH], rest);
      assert text == [SLASH, STAR] + text[2..];
    }
  }
}
