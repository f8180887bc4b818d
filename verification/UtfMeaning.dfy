/**
 What the bytes written for an escape mean: an independent UTF-8 reader
 (section 3 of RFC 3629) gets the code point back, no shorter spelling of it
 exists, and every scalar value has an escape.
 */
module UtfMeaning {
  import opened Bytes
  import opened Utf

  datatype Decoded = Malformed | Scalar(cp: nat)

  predicate Follows(b: byte) {
    0x80 <= b < 0xC0
  }

  function Payload(b: byte): nat
    requires Follows(b)
  {
    b - 0x80
  }

  /** Reads one encoded character by the bit patterns of the RFC's table, overlong spellings included. */
  function ReadUtf8(s: seq<byte>): Decoded {
    if |s| == 1 && s[0] < 0x80 then Scalar(s[0])
    else if |s| == 2 && 0xC0 <= s[0] < 0xE0 && Follows(s[1]) then
      Scalar(0x40 * (s[0] - 0xC0) as int + Payload(s[1]))
    else if |s| == 3 && 0xE0 <= s[0] < 0xF0 && Follows(s[1]) && Follows(s[2]) then
      Scalar(0x1000 * (s[0] - 0xE0) as int + 0x40 * Payload(s[1]) + Payload(s[2]))
    else if |s| == 4 && 0xF0 <= s[0] < 0xF8 && Follows(s[1]) && Follows(s[2]) && Follows(s[3]) then
      Scalar(0x40000 * (s[0] - 0xF0) as int + 0x1000 * Payload(s[1]) + 0x40 * Payload(s[2]) + Payload(s[3]))
    else Malformed
  }

  lemma Unrolled(cp: nat, mid: nat, high: nat, top: nat)
    requires mid == cp / 64 && high == mid / 64 && top == high / 64
    ensures Top(cp, 1) == mid && Top(cp, 2) == high && Top(cp, 3) == top
    ensures Continuations(cp, 1) == [Continuation(cp)]
    ensures Continuations(cp, 2) == [Continuation(mid), Continuation(cp)]
    ensures Continuations(cp, 3) == [Continuation(high), Continuation(mid), Continuation(cp)]
  {
    assert Top(high, 1) == Top(top, 0);
    assert Top(mid, 1) == Top(high, 0) && Top(mid, 2) == Top(high, 1);
    assert Continuations(high, 1) == Continuations(top, 0) + [Continuation(high)];
    assert Continuations(mid, 1) == Continuations(high, 0) + [Continuation(mid)];
    assert Continuations(mid, 2) == Continuations(high, 1) + [Continuation(mid)];
    assert Continuations(cp, 1) == Continuations(mid, 0) + [Continuation(cp)];
  }

  /** Decoding the bytes written for a code point gives the code point. */
  lemma Utf8Decodes(cp: nat)
    requires cp <= 0x10FFFF
    ensures ReadUtf8(Utf8(cp)) == Scalar(cp)
  {
    var mid := cp / 64;
    var high := mid / 64;
    var top := high / 64;
    Unrolled(cp, mid, high, top);
    TopFits(cp);
    if cp < 0x80 {
      assert Utf8(cp) == [Lead(cp, 1)];
    } else if cp < 0x800 {
      assert Utf8(cp) == [Lead(mid, 2), Continuation(cp)];
    } else if cp < 0x10000 {
      assert Utf8(cp) == [Lead(high, 3), Continuation(mid), Continuation(cp)];
    } else {
      assert Utf8(cp) == [Lead(top, 4), Continuation(high), Continuation(mid), Continuation(cp)];
    }
  }

  /** No spelling that reads as the same code point is shorter than the one written. */
  lemma Utf8Shortest(cp: nat, s: seq<byte>)
    requires cp <= 0x10FFFF && ReadUtf8(s) == Scalar(cp)
    ensures |Utf8(cp)| <= |s|
  {}

  /** Distinct code points are written as distinct bytes. */
  lemma Utf8Injective(a: nat, b: nat)
    requires a <= 0x10FFFF && b <= 0x10FFFF
    requires Utf8(a) == Utf8(b)
    ensures a == b
  {
    Utf8Decodes(a);
    Utf8Decodes(b);
  }

  /** A UTF-16 code unit as `\uxxxx`. */
  function Spell(unit: nat): (s: seq<byte>)
    requires unit <= 0xFFFF
    ensures |s| == 6
  {
    [BACKSLASH, LOWER_U, HexDigit(unit / 16 / 16 / 16), HexDigit(unit / 16 / 16 % 16),
     HexDigit(unit / 16 % 16), HexDigit(unit % 16)]
  }

  /** The escape of a scalar value: one code unit, or the surrogate pair of section 2.1 of RFC 2781. */
  function EscapeOf(cp: nat): seq<byte>
    requires cp <= 0x10FFFF
  {
    if cp < 0x10000 then Spell(cp)
    else Spell(0xD800 + (cp - 0x10000) / 0x400) + Spell(0xDC00 + (cp - 0x10000) % 0x400)
  }

  lemma SpellReads(unit: nat)
    requires unit <= 0xFFFF
    ensures Spells(Spell(unit), unit)
  {
    var s := Spell(unit)[2..6];
    assert s == [HexDigit(unit / 16 / 16 / 16), HexDigit(unit / 16 / 16 % 16), HexDigit(unit / 16 % 16), HexDigit(unit % 16)];
    assert HexDigits(s);
  }

  /** Some spelling of a code unit, with digits of either case. */
  predicate Spells(s: seq<byte>, unit: nat) {
    |s| == 6 && s[0] == BACKSLASH && s[1] == LOWER_U && HexDigits(s[2..]) && Hex4(s[2..]) == unit
  }

  /** A digit may be written as a capital. */
  lemma EitherCase(d: nat)
    requires 10 <= d < 16
    ensures HexNibble(55 + d) == HexNibble(87 + d) == Nibble(d)
  {}

  /** Some escape of a scalar value: one code unit, or the surrogate pair of section 2.1 of RFC 2781. */
  predicate Escapes(e: seq<byte>, cp: nat) {
    if cp < 0x10000 then Spells(e, cp)
    else
      && |e| == 12
      && Spells(e[..6], 0xD800 + (cp - 0x10000) / 0x400)
      && Spells(e[6..], 0xDC00 + (cp - 0x10000) % 0x400)
  }

  lemma SplitPair(cp: nat)
    requires 0x10000 <= cp <= 0x10FFFF
    ensures var high, low := 0xD800 + (cp - 0x10000) / 0x400, 0xDC00 + (cp - 0x10000) % 0x400;
            && 0xD800 <= high <= 0xDBFF && 0xDC00 <= low <= 0xDFFF
            && CombineSurrogates(high, low) == cp
  {}

  /** Every scalar value has an escape. */
  lemma EscapeExists(cp: nat)
    requires IsScalar(cp)
    ensures Escapes(EscapeOf(cp), cp)
  {
    if cp < 0x10000 {
      SpellReads(cp);
    } else {
      SplitPair(cp);
      SpellReads(0xD800 + (cp - 0x10000) / 0x400);
      SpellReads(0xDC00 + (cp - 0x10000) % 0x400);
    }
  }

  /** Every escape of a scalar value, however spelled, is accepted and stands for that value, whatever follows it. */
  lemma EscapeReads(cp: nat, e: seq<byte>, rest: seq<byte>)
    requires IsScalar(cp) && Escapes(e, cp)
    ensures Utf16Literal(e + rest) == Literal(|e|, cp)
  {
    var s := e + rest;
    if cp < 0x10000 {
      assert s[2..6] == e[2..];
    } else {
      SplitPair(cp);
      assert s[2..6] == e[..6][2..];
      assert s[8..12] == e[6..][2..];
      assert s[6] == e[6..][0] && s[7] == e[6..][1];
    }
  }

  /** The bytes that an escape is turned into read back as the value it stands for. */
  lemma EscapeMeansItsBytes(cp: nat, e: seq<byte>, rest: seq<byte>)
    requires IsScalar(cp) && Escapes(e, cp)
    ensures var lit := Utf16Literal(e + rest);
            lit.Literal? && ReadUtf8(Utf8(lit.codepoint)) == Scalar(cp)
  {
    EscapeReads(cp, e, rest);
    Utf8Decodes(cp);
  }

  /**
   Of escapes with valid digits, a low surrogate alone, or a high one without
   an escaped low one right behind it, is rejected; all else is accepted with
   the value that section 2.2 of RFC 2781 gives.
   */
  lemma SurrogatesPaired(s: seq<byte>)
    ensures var lit := Utf16Literal(s);
            if |s| < 6 then lit == BadLiteral
            else
              var first := Hex4(s[2..6]);
              if 0xDC00 <= first <= 0xDFFF then lit == BadLiteral
              else if 0xD800 <= first <= 0xDBFF then
                if |s| >= 12 && s[6] == BACKSLASH && s[7] == LOWER_U && 0xDC00 <= Hex4(s[8..12]) <= 0xDFFF
                then lit == Literal(12, 0x10000 + (first - 0xD800) * 0x400 + (Hex4(s[8..12]) - 0xDC00))
                else lit == BadLiteral
              else lit == Literal(6, first)
  {
    if |s| >= 12 {
      var first, second := Hex4(s[2..6]), Hex4(s[8..12]);
      if 0xD800 <= first <= 0xDBFF && 0xDC00 <= second <= 0xDFFF {
        PairValue(first, second);
      }
    }
  }

  /** Digits that are none are not noticed: they count as zero, and the escape stands for U+0000. */
  lemma MalformedIsNul(s: seq<byte>)
    requires |s| >= 6 && !HexDigits(s[2..6])
    ensures Utf16Literal(s) == Literal(6, 0) && Utf8(0) == [NUL]
  {
    assert Utf8(0) == [Lead(0, 1)];
  }

  lemma PairValue(high: nat, low: nat)
    requires 0xD800 <= high <= 0xDBFF && 0xDC00 <= low <= 0xDFFF
    ensures CombineSurrogates(high, low) == 0x10000 + (high - 0xD800) * 0x400 + (low - 0xDC00)
  {}
}
