/**
 UTF-16 escapes (`\uXXXX`, or a surrogate pair of them) turned into UTF-8
 bytes. Code points are kept as integers; `UtfMasks` shows that the shifts and
 masks of the original are the quotients, remainders and sums used here.
 */
module Utf {
  import opened Bytes
  import opened Seqs

  datatype Nibble = BadNibble | Nibble(value: nat)

  /** One hexadecimal digit of either case. */
  function HexNibble(b: byte): (r: Nibble)
    ensures r.Nibble? ==> r.value < 16
    ensures r.Nibble? ==> b != BACKSLASH && b != QUOTE && b != LOWER_U
  {
    if 48 <= b <= 57 then Nibble(b - 48)
    else if 65 <= b <= 70 then Nibble(10 + b - 65)
    else if 97 <= b <= 102 then Nibble(10 + b - 97)
    else BadNibble
  }

  /** The lower-case digit that `%x` prints. */
  function HexDigit(n: nat): (b: byte)
    requires n < 16
    ensures HexNibble(b) == Nibble(n)
  {
    if n < 10 then 48 + n else 87 + n
  }

  predicate HexDigits(s: seq<byte>) {
    forall i :: 0 <= i < |s| ==> HexNibble(s[i]).Nibble?
  }

  /** The number that four hexadecimal digits spell; anything else counts as zero. */
  function Hex4(s: seq<byte>): (h: nat)
    requires |s| == 4
    ensures h <= 0xFFFF
  {
    if HexDigits(s) then
      0x1000 * HexNibble(s[0]).value + 0x100 * HexNibble(s[1]).value + 0x10 * HexNibble(s[2]).value + HexNibble(s[3]).value
    else 0
  }

  /** `parse_hex4`: adds a digit, then shifts, with an early zero on a bad digit. */
  method ParseHex4(input: seq<byte>) returns (h: nat)
    requires |input| >= 4
    ensures h == Hex4(input[..4])
  {
    h := 0;
    var i := 0;
    while i < 4
      invariant 0 <= i <= 4
      invariant HexDigits(input[..i])
      invariant forall j :: 0 <= j < i ==> HexNibble(input[j]).Nibble?
      invariant i == 0 ==> h == 0
      invariant i == 1 ==> h == 0x10 * HexNibble(input[0]).value
      invariant i == 2 ==> h == 0x100 * HexNibble(input[0]).value + 0x10 * HexNibble(input[1]).value
      invariant i == 3 ==> h == 0x1000 * HexNibble(input[0]).value + 0x100 * HexNibble(input[1]).value + 0x10 * HexNibble(input[2]).value
      invariant i == 4 ==> h == Hex4(input[..4])
    {
      var digit := HexNibble(input[i]);
      if digit.BadNibble? {
        assert input[..4][i] == input[i];
        return 0;
      }
      h := h + digit.value;
      if i < 3 {
        h := h * 16;
      }
      i := i + 1;
    }
  }

  datatype Literal = BadLiteral | Literal(used: nat, codepoint: nat)

  /** The code point of a high and a low surrogate. */
  function CombineSurrogates(high: nat, low: nat): (cp: nat)
    ensures 0x10000 <= cp <= 0x10FFFF
  {
    0x10000 + (high % 0x400) * 0x400 + low % 0x400
  }

  /** The escape at the front of `s`, where `s` runs up to the closing quote. */
  function Utf16Literal(s: seq<byte>): (r: Literal)
    ensures r.Literal? ==> 6 <= r.used <= |s|
    ensures r.Literal? ==> IsScalar(r.codepoint)
  {
    if |s| < 6 then BadLiteral
    else
      var first := Hex4(s[2..6]);
      if 0xDC00 <= first <= 0xDFFF then BadLiteral
      else if 0xD800 <= first <= 0xDBFF then
        if |s| < 12 || s[6] != BACKSLASH || s[7] != LOWER_U then BadLiteral
        else
          var second := Hex4(s[8..12]);
          if second < 0xDC00 || second > 0xDFFF then BadLiteral
          else Literal(12, CombineSurrogates(first, second))
      else Literal(6, first)
  }

  /** The Unicode scalar values (section 3 of RFC 3629). */
  predicate IsScalar(cp: nat) {
    cp <= 0x10FFFF && !(0xD800 <= cp <= 0xDFFF)
  }

  function Utf8Length(cp: nat): (n: nat)
    ensures 1 <= n <= 4
  {
    if cp < 0x80 then 1 else if cp < 0x800 then 2 else if cp < 0x10000 then 3 else 4
  }

  /** What is left of `cp` after `n` six-bit shifts. */
  function Top(cp: nat, n: nat): nat {
    if n == 0 then cp else Top(cp / 64, n - 1)
  }

  function Continuation(cp: nat): byte {
    0x80 + cp % 64
  }

  /** The last `n` bytes of an encoding, six bits of `cp` in each. */
  function Continuations(cp: nat, n: nat): (s: seq<byte>)
    ensures |s| == n
  {
    if n == 0 then [] else Continuations(cp / 64, n - 1) + [Continuation(cp)]
  }

  /** The lead byte of an encoding of `n` bytes, from what is left of the code point. */
  function Lead(top: nat, n: nat): byte
    requires 1 <= n <= 4
    requires top < if n == 1 then 0x80 else if n == 2 then 0x20 else if n == 3 then 0x10 else 0x08
  {
    top + if n == 1 then 0 else if n == 2 then 0xC0 else if n == 3 then 0xE0 else 0xF0
  }

  lemma TopFits(cp: nat)
    requires cp <= 0x10FFFF
    ensures var top := Top(cp, Utf8Length(cp) - 1);
            top < match Utf8Length(cp) case 1 => 0x80 case 2 => 0x20 case 3 => 0x10 case _ => 0x08
  {
    assert Top(cp, 1) == Top(cp / 64, 0);
    assert Top(cp, 2) == Top(cp / 64, 1) == Top(cp / 64 / 64, 0);
    assert Top(cp, 3) == Top(cp / 64, 2) == Top(cp / 64 / 64, 1) == Top(cp / 64 / 64 / 64, 0);
  }

  /** The UTF-8 bytes of a code point. */
  function Utf8(cp: nat): (s: seq<byte>)
    requires cp <= 0x10FFFF
    ensures |s| == Utf8Length(cp)
  {
    TopFits(cp);
    var n := Utf8Length(cp);
    [Lead(Top(cp, n - 1), n)] + Continuations(cp, n - 1)
  }

  /**
   `utf16_literal_to_utf8` on the literal at `inputPointer`, writing into
   `output` at `outputPointer`. Zero for the length means failure.
   */
  method Utf16LiteralToUtf8(content: seq<byte>, inputPointer: nat, inputEnd: nat,
                            output: array<byte>, outputPointer: nat)
    returns (sequenceLength: nat, newPointer: nat)
    requires inputPointer <= inputEnd <= |content|
    requires var lit := Utf16Literal(content[inputPointer..inputEnd]);
             lit.Literal? ==> outputPointer + Utf8Length(lit.codepoint) <= output.Length
    modifies output
    ensures var lit := Utf16Literal(content[inputPointer..inputEnd]);
            if lit.BadLiteral? then
              sequenceLength == 0 && newPointer == outputPointer && output[..] == old(output[..])
            else
              && sequenceLength == lit.used
              && newPointer == outputPointer + Utf8Length(lit.codepoint) <= output.Length
              && output[..newPointer] == old(output[..outputPointer]) + Utf8(lit.codepoint)
  {
    ghost var s := content[inputPointer..inputEnd];
    newPointer := outputPointer;
    if inputEnd - inputPointer < 6 {
      return 0, outputPointer;
    }
    var firstCode := ParseHex4(content[inputPointer + 2..inputEnd]);
    assert content[inputPointer + 2..inputEnd][..4] == s[2..6];
    if 0xDC00 <= firstCode <= 0xDFFF {
      return 0, outputPointer;
    }
    var codepoint: nat;
    if 0xD800 <= firstCode <= 0xDBFF {
      sequenceLength := 12;
      var secondSequence := inputPointer + 6;
      if inputEnd - secondSequence < 6 {
        return 0, outputPointer;
      }
      if content[secondSequence] != BACKSLASH || content[secondSequence + 1] != LOWER_U {
        return 0, outputPointer;
      }
      var secondCode := ParseHex4(content[secondSequence + 2..inputEnd]);
      assert content[secondSequence + 2..inputEnd][..4] == s[8..12];
      if secondCode < 0xDC00 || secondCode > 0xDFFF {
        return 0, outputPointer;
      }
      codepoint := CombineSurrogates(firstCode, secondCode);
    } else {
      sequenceLength := 6;
      codepoint := firstCode;
    }
    newPointer := StoreUtf8(codepoint, output, outputPointer);
  }

  /** The encoding half of `utf16_literal_to_utf8`: the length, the continuation bytes, then the lead byte. */
  method StoreUtf8(cp: nat, output: array<byte>, outputPointer: nat) returns (newPointer: nat)
    requires cp <= 0x10FFFF
    requires outputPointer + Utf8Length(cp) <= output.Length
    modifies output
    ensures newPointer == outputPointer + Utf8Length(cp)
    ensures output[..newPointer] == old(output[..outputPointer]) + Utf8(cp)
  {
    hide Continuations, Continuation, Lead, Top;
    var length := Utf8Length(cp);
    var codepoint := cp;
    var position: nat := length - 1;
    ghost var front, tail := output[..outputPointer], [];
    Empty(Continuations(cp, length - 1));
    while position > 0
      invariant position < length
      invariant Top(codepoint, position) == Top(cp, length - 1)
      invariant Continuations(cp, length - 1) == Continuations(codepoint, position) + tail
      invariant output[outputPointer + position + 1..outputPointer + length] == tail
      invariant output[..outputPointer] == front
    {
      ContinuationsStep(codepoint, position);
      Assoc(Continuations(codepoint / 64, position - 1), [Continuation(codepoint)], tail);
      output[outputPointer + position] := Continuation(codepoint);
      tail := [Continuation(codepoint)] + tail;
      codepoint := codepoint / 64;
      position := position - 1;
    }
    ContinuationsStep(codepoint, 0);
    Empty(tail);
    TopFits(cp);
    output[outputPointer] := Lead(codepoint, length);
    newPointer := outputPointer + length;
    SplitAt(output, outputPointer, newPointer);
    assert output[outputPointer + 1..newPointer] == tail;
  }

  lemma SplitAt(a: array<byte>, i: nat, j: nat)
    requires i < j <= a.Length
    ensures a[..j] == a[..i] + ([a[i]] + a[i + 1..j])
  {}

  lemma ContinuationsStep(cp: nat, n: nat)
    ensures n > 0 ==> Continuations(cp, n) == Continuations(cp / 64, n - 1) + [Continuation(cp)]
    ensures n > 0 ==> Top(cp, n) == Top(cp / 64, n - 1)
    ensures n == 0 ==> Continuations(cp, n) == [] && Top(cp, n) == cp
  {}
}
