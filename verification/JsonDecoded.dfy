/**
 The string parser against the structure of JSON strings: it takes exactly
 those, and makes of them the bytes that they stand for.
 */
module JsonDecoded {
  import opened Bytes
  import opened Seqs
  import opened Utf
  import opened UtfMeaning
  import opened StringCodec
  import opened Json
  import S = JsonStrings

  // ---- digits and code points

  /** The hexadecimal digits, and only they, have the value that they have. */
  lemma DigitsMean(c: byte)
    ensures HexNibble(c).Nibble? <==> S.HexDigit(c)
    ensures S.HexDigit(c) ==> HexNibble(c).value == S.HexValue(c)
  {}

  lemma FourDigitsMean(t: seq<byte>)
    requires S.UForm(t)
    ensures HexDigits(t[2..6]) <==> S.UEscape(t)
    ensures Hex4(t[2..6]) == if S.UEscape(t) then S.UValue(t) else 0
  {
    hide HexNibble, S.HexDigit, S.HexValue;
    var s := t[2..6];
    assert s == [t[2], t[3], t[4], t[5]];
    DigitsMean(t[2]);
    DigitsMean(t[3]);
    DigitsMean(t[4]);
    DigitsMean(t[5]);
    assert HexDigits(s) <==> HexNibble(s[0]).Nibble? && HexNibble(s[1]).Nibble? && HexNibble(s[2]).Nibble? && HexNibble(s[3]).Nibble?;
  }

  /** The bytes of a code point are those of the table of RFC 3629. */
  lemma Utf8IsTable(cp: nat)
    requires cp <= 0x10FFFF
    ensures Utf8(cp) == S.Encoded(cp)
  {
    var mid := cp / 64;
    var high := mid / 64;
    var top := high / 64;
    Unrolled(cp, mid, high, top);
    TopFits(cp);
    assert high == cp / 4096 && top == cp / 262144;
  }

  // ---- one unit

  /** The decoder makes of a unit, whatever follows it, the bytes that it stands for. */
  lemma UnitDecodes(u: S.Unit, tail: seq<byte>)
    requires S.Lax(u)
    ensures u.text != [] && DecodeStep(u.text + tail) == Step(u.bytes, |u.text|)
  {
    hide HexNibble, S.HexDigit, S.HexValue, Utf8, S.Encoded;
    var b := u.text + tail;
    if S.Plain(u) {
      assert b[0] == u.text[0] && [b[0]] == u.text;
    } else if S.Letter(u) {
      LetterDecodes(u, tail);
    } else if S.Pair(u) {
      PairDecodes(u, tail);
    } else {
      EscapeDecodes(u, tail);
    }
  }

  lemma LetterDecodes(u: S.Unit, tail: seq<byte>)
    requires S.Letter(u)
    ensures DecodeStep(u.text + tail) == Step(u.bytes, |u.text|)
  {
    hide Utf16Literal;
    var b := u.text + tail;
    assert b[0] == u.text[0] && b[1] == u.text[1];
  }

  lemma EscapeDecodes(u: S.Unit, tail: seq<byte>)
    requires S.Single(u) || (S.UForm(u.text) && !S.UEscape(u.text) && u.bytes == [0])
    ensures DecodeStep(u.text + tail) == Step(u.bytes, |u.text|)
  {
    hide HexNibble, S.HexDigit, S.HexValue, Hex4, HexDigits, Utf8, S.Encoded, S.UValue, S.UEscape;
    SingleForm(u);
    var b := u.text + tail;
    assert b[..6] == u.text && b[2..6] == u.text[2..6];
    FourDigitsMean(u.text);
    var cp := Hex4(b[2..6]);
    Utf8IsTable(cp);
    ZeroEncoded();
  }

  lemma SingleForm(u: S.Unit)
    ensures S.Single(u) ==> S.UForm(u.text)
  {}

  lemma ZeroEncoded()
    ensures S.Encoded(0) == [0]
  {}

  lemma PairDecodes(u: S.Unit, tail: seq<byte>)
    requires S.Pair(u)
    ensures DecodeStep(u.text + tail) == Step(u.bytes, |u.text|)
  {
    hide HexNibble, S.HexDigit, S.HexValue, Hex4, HexDigits, Utf8, S.Encoded, S.UValue, S.UEscape;
    var b := u.text + tail;
    var high, low := u.text[..6], u.text[6..];
    PairForms(u);
    assert b[2..6] == high[2..6] && b[8..12] == low[2..6] && b[6] == low[0] && b[7] == low[1];
    FourDigitsMean(high);
    FourDigitsMean(low);
    PairValue(Hex4(b[2..6]), Hex4(b[8..12]));
    Utf8IsTable(CombineSurrogates(Hex4(b[2..6]), Hex4(b[8..12])));
  }

  lemma PairForms(u: S.Unit)
    requires S.Pair(u)
    ensures S.UForm(u.text[..6]) && S.UForm(u.text[6..])
  {}

  /** A turn of the decoder that is not at a lone backslash takes a unit. */
  lemma TurnIsUnit(b: seq<byte>)
    requires b != [] && DecodeStep(b).Step? && DecodeStep(b).used <= |b|
    ensures S.Lax(S.Unit(b[..DecodeStep(b).used], DecodeStep(b).bytes))
  {
    hide Utf16Literal, S.UForm, S.UEscape, S.UValue, S.Encoded;
    if b[0] == BACKSLASH && |b| > 1 && b[1] == LOWER_U {
      if Utf16Literal(b).used == 12 { PairTurn(b); } else { SingleTurn(b); }
    } else if b[0] == BACKSLASH {
      assert b[..2] == [b[0], b[1]];
    }
  }

  lemma SingleTurn(b: seq<byte>)
    requires |b| > 1 && b[0] == BACKSLASH && b[1] == LOWER_U
    requires var lit := Utf16Literal(b); lit.Literal? && lit.used != 12
    ensures var step, u := DecodeStep(b), S.Unit(b[..6], DecodeStep(b).bytes);
            && step.used == 6 <= |b|
            && (S.Single(u) || (S.UForm(u.text) && !S.UEscape(u.text) && u.bytes == [0]))
  {
    hide HexNibble, S.HexDigit, S.HexValue, Hex4, HexDigits, Utf8, S.Encoded, S.UValue;
    var t := b[..6];
    assert t[2..6] == b[2..6];
    FourDigitsMean(t);
    Utf8IsTable(Utf16Literal(b).codepoint);
    ZeroEncoded();
  }

  lemma PairTurn(b: seq<byte>)
    requires |b| > 1 && b[0] == BACKSLASH && b[1] == LOWER_U
    requires var lit := Utf16Literal(b); lit.Literal? && lit.used == 12 <= |b|
    ensures DecodeStep(b).used == 12 && S.Pair(S.Unit(b[..12], DecodeStep(b).bytes))
  {
    hide HexNibble, S.HexDigit, S.HexValue, Hex4, HexDigits, Utf8, S.Encoded, S.UValue;
    var t := b[..12];
    var high, low := t[..6], t[6..];
    assert high[2..6] == b[2..6] && low[2..6] == b[8..12];
    FourDigitsMean(high);
    FourDigitsMean(low);
    PairValue(Hex4(b[2..6]), Hex4(b[8..12]));
    Utf8IsTable(Utf16Literal(b).codepoint);
  }

  // ---- whole strings

  lemma {:induction false} UnitsDecode(us: seq<S.Unit>, tail: seq<byte>)
    requires S.AllLax(us)
    ensures Decode(S.Texts(us) + tail) ==
            match Decode(tail)
            case Bad(at) => Bad(|S.Texts(us)| + at)
            case Good(bytes) => Good(S.Meant(us) + bytes)
  {
    hide DecodeStep, S.Lax;
    if us == [] {
      Empty(tail);
      if Decode(tail).Good? { Empty(Decode(tail).bytes); }
    } else {
      var u, more := us[0], S.Texts(us[1..]) + tail;
      Assoc(u.text, S.Texts(us[1..]), tail);
      UnitDecodes(u, more);
      UnitsDecode(us[1..], tail);
      DropPrefix(u.text, more);
      if Decode(tail).Good? { Assoc(u.bytes, S.Meant(us[1..]), Decode(tail).bytes); }
    }
  }

  /** Whatever bytes a string's text stands for, the decoder finds them, */
  lemma ReadsDecode(b: seq<byte>, bytes: seq<byte>)
    requires S.Reads(b, bytes)
    ensures Decode(b) == Good(bytes)
  {
    hide DecodeStep, S.AllLax, S.Texts, S.Meant;
    var us :| S.AllLax(us) && ((S.Texts(us) == b && S.Meant(us) == bytes)
                               || (S.Texts(us) + S.Ascii("\\") == b && S.Meant(us) + S.Ascii("\"") == bytes));
    if S.Texts(us) == b && S.Meant(us) == bytes {
      UnitsDecode(us, []);
      Empty(b);
      Empty(bytes);
      assert Decode([]) == Good([]);
    } else {
      UnitsDecode(us, S.Ascii("\\"));
      LoneBackslash();
    }
  }

  lemma LoneBackslash()
    ensures S.Ascii("\\") == [BACKSLASH] && S.Ascii("\"") == [QUOTE]
    ensures Decode([BACKSLASH]) == Good([QUOTE])
  {
    assert DecodeStep([BACKSLASH]) == Step([QUOTE], 2);
    assert [QUOTE] + [] == [QUOTE];
  }

  /** and what it finds, the text stands for. */
  lemma {:induction false} DecodeReads(b: seq<byte>)
    requires Decode(b).Good?
    ensures S.Reads(b, Decode(b).bytes)
    decreases |b|
  {
    hide DecodeStep, S.Lax;
    if b == [] {
      assert S.AllLax([]) && S.Texts([]) == b && S.Meant([]) == [];
    } else {
      var step := DecodeStep(b);
      if step.used > |b| {
        TurnIsLone(b);
        LoneBackslash();
        assert S.AllLax([]) && S.Texts([]) + S.Ascii("\\") == b && S.Meant([]) + S.Ascii("\"") == [QUOTE];
      } else {
        DecodeReads(b[step.used..]);
        var us :| S.AllLax(us) && ((S.Texts(us) == b[step.used..] && S.Meant(us) == Decode(b[step.used..]).bytes)
                                   || (S.Texts(us) + S.Ascii("\\") == b[step.used..]
                                       && S.Meant(us) + S.Ascii("\"") == Decode(b[step.used..]).bytes));
        TurnIsUnit(b);
        MoreUnits(b, step, us);
      }
    }
  }

  lemma TurnIsLone(b: seq<byte>)
    requires b != [] && DecodeStep(b).Step? && DecodeStep(b).used > |b|
    ensures b == [BACKSLASH] && DecodeStep(b) == Step([QUOTE], 2)
  {
    hide Utf16Literal;
  }

  lemma MoreUnits(b: seq<byte>, step: Step, us: seq<S.Unit>)
    requires b != [] && step.Step? && step.used <= |b| && Decode(b[step.used..]).Good?
    requires S.Lax(S.Unit(b[..step.used], step.bytes)) && S.AllLax(us)
    requires (S.Texts(us) == b[step.used..] && S.Meant(us) == Decode(b[step.used..]).bytes)
             || (S.Texts(us) + S.Ascii("\\") == b[step.used..] && S.Meant(us) + S.Ascii("\"") == Decode(b[step.used..]).bytes)
    ensures S.Reads(b, step.bytes + Decode(b[step.used..]).bytes)
  {
    hide S.Lax, Decode;
    var u := S.Unit(b[..step.used], step.bytes);
    var all := [u] + us;
    assert all[1..] == us && S.AllLax(all);
    assert b == u.text + b[step.used..];
    Assoc(u.text, S.Texts(us), S.Ascii("\\"));
    Assoc(u.bytes, S.Meant(us), S.Ascii("\""));
  }

  lemma {:induction false} ClosedIsFound(b: seq<byte>, rest: seq<byte>)
    requires S.Closed(b)
    ensures var c := FindClose(b + ([QUOTE] + rest)); c.Close? && c.at == |b|
    decreases |b|
  {
    var s := b + ([QUOTE] + rest);
    if b == [] {
      assert s == [QUOTE] + rest;
    } else if b[0] == BACKSLASH {
      assert s[2..] == b[2..] + ([QUOTE] + rest);
      ClosedIsFound(b[2..], rest);
    } else {
      assert s[1..] == b[1..] + ([QUOTE] + rest);
      ClosedIsFound(b[1..], rest);
    }
  }

  lemma {:induction false} FoundIsClosed(s: seq<byte>)
    requires FindClose(s).Close?
    ensures S.Closed(s[..FindClose(s).at])
    decreases |s|
  {
    hide FindClose, S.Closed;
    FoundStep(s);
    var at := FindClose(s).at;
    if s[0] == QUOTE {
      NothingClosed();
    } else {
      var n := if s[0] == BACKSLASH then 2 else 1;
      FoundIsClosed(s[n..]);
      ClosedGrows(s[..n], s[n..][..at - n]);
      FrontOf(s, n, at);
    }
  }

  lemma FoundStep(s: seq<byte>)
    requires FindClose(s).Close?
    ensures s != []
    ensures s[0] == QUOTE ==> FindClose(s).at == 0
    ensures s[0] != QUOTE ==>
              var n := if s[0] == BACKSLASH then 2 else 1;
              n <= |s| && FindClose(s[n..]).Close? && FindClose(s).at == n + FindClose(s[n..]).at
  {}

  lemma NothingClosed()
    ensures S.Closed([])
  {}

  lemma ClosedGrows(t: seq<byte>, tail: seq<byte>)
    requires S.Closed(tail) && t != [] && t[0] != QUOTE && |t| == if t[0] == BACKSLASH then 2 else 1
    ensures S.Closed(t + tail)
  {
    assert (t + tail)[|t|..] == tail;
  }

  lemma FrontOf(s: seq<byte>, n: nat, at: nat)
    requires n <= at <= |s|
    ensures s[..n] + s[n..][..at - n] == s[..at]
  {}

  /** The parser takes every string that is closed where it ends and stands for some bytes, and leaves what follows it, */
  lemma StringTaken(b: seq<byte>, bytes: seq<byte>, rest: seq<byte>)
    requires S.Closed(b) && S.Reads(b, bytes)
    ensures ParseString(SpellString(b, rest)) == Ok(Chars(BeforeNul(bytes)), rest)
  {
    hide FindClose, Decode, S.Reads, S.Closed;
    var body := b + ([QUOTE] + rest);
    Cons(QUOTE, body);
    assert SpellString(b, rest) == [QUOTE] + body;
    ClosedIsFound(b, rest);
    ReadsDecode(b, bytes);
    DropPrefix(b, [QUOTE] + rest);
    assert body[|b| + 1..] == rest;
  }

  /** and what it takes is one. */
  lemma StringTakes(s: seq<byte>) returns (b: seq<byte>, bytes: seq<byte>)
    requires s != [] && ParseString(s).Ok?
    ensures S.Closed(b) && S.Reads(b, bytes)
    ensures s == SpellString(b, ParseString(s).rest) && ParseString(s).value == Chars(BeforeNul(bytes))
  {
    hide FindClose, Decode, S.Reads, S.Closed;
    var body := s[1..];
    var at := FindClose(body).at;
    b := body[..at];
    bytes := Decode(b).bytes;
    FoundIsClosed(body);
    DecodeReads(b);
    assert body == b + ([QUOTE] + body[at + 1..]);
    assert s == [QUOTE] + body;
  }

  // ---- what RFC 8259 promises

  /** Every string of section 7 of RFC 8259, escapes of each form included, is taken for what it stands for. */
  lemma StandardStringTaken(us: seq<S.Unit>, rest: seq<byte>)
    requires S.AllStandard(us)
    ensures ParseString(SpellString(S.Texts(us), rest)) == Ok(Chars(BeforeNul(S.Meant(us))), rest)
  {
    hide S.Texts, S.Meant, S.Closed, S.AllStandard, S.AllLax;
    S.StandardCloses(us);
    StringTaken(S.Texts(us), S.Meant(us), rest);
  }

  /** In front of any further text of the literal an escape is decoded to the code point's bytes. */
  lemma EscapeDecoded(cp: nat, e: seq<byte>, tail: seq<byte>)
    requires IsScalar(cp) && Escapes(e, cp)
    ensures Decode(e + tail) ==
            match Decode(tail)
            case Bad(at) => Bad(|e| + at)
            case Good(bytes) => Good(S.Encoded(cp) + bytes)
  {
    hide Decode, DecodeStep, S.Encoded;
    var u := EscapeUnit(cp, e);
    var us := [u];
    assert us[1..] == [];
    UnitsDecode(us, tail);
    assert S.Texts(us) == e by { Empty(e); }
    assert S.Meant(us) == S.Encoded(cp) by { Empty(S.Encoded(cp)); }
  }

  lemma EscapeUnit(cp: nat, e: seq<byte>) returns (u: S.Unit)
    requires IsScalar(cp) && Escapes(e, cp)
    ensures u == S.Unit(e, S.Encoded(cp)) && S.Standard(u)
  {
    hide S.Encoded, HexDigits, Hex4, S.UValue;
    u := S.Unit(e, S.Encoded(cp));
    if cp < 0x10000 {
      assert e[2..6] == e[2..];
      UFormOf(e);
      FourDigitsMean(e);
    } else {
      var high, low := e[..6], e[6..];
      assert high[2..6] == high[2..] && low[2..6] == low[2..];
      UFormOf(high);
      UFormOf(low);
      FourDigitsMean(high);
      FourDigitsMean(low);
    }
  }

  lemma UFormOf(t: seq<byte>)
    requires |t| == 6 && t[0] == BACKSLASH && t[1] == LOWER_U
    ensures S.UForm(t)
  {}

  /** A literal that is one escape of a scalar value is read as the bytes that an independent reader takes for it. */
  lemma EscapeParses(cp: nat, e: seq<byte>, rest: seq<byte>)
    requires IsScalar(cp) && cp != 0 && Escapes(e, cp)
    ensures var r := ParseString(SpellString(e, rest));
            r.Ok? && r.rest == rest && ReadUtf8(r.value.chars) == Scalar(cp)
  {
    hide ReadUtf8, S.Encoded, ParseString;
    var u := EscapeUnit(cp, e);
    var us := [u];
    assert us[1..] == [];
    assert S.Texts(us) == e by { Empty(e); }
    assert S.Meant(us) == S.Encoded(cp) by { Empty(S.Encoded(cp)); }
    StandardStringTaken(us, rest);
    NoNulEncoded(cp);
    Utf8Decodes(cp);
    Utf8IsTable(cp);
  }

  lemma NoNulEncoded(cp: nat)
    requires 0 < cp <= 0x10FFFF
    ensures NUL !in S.Encoded(cp)
  {}
}
