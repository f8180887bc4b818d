/**
 What may stand between the quotes of a JSON string (section 7 of RFC 8259),
 and which bytes it stands for. Characters stand for themselves, and nothing
 here is taken from the decoder or the encoder.
 */
module JsonStrings {
  import opened Bytes

  /** The code of a character. */
  function Code(c: char): byte
    requires c < '\U{0100}'
  {
    c as int
  }

  function Ascii(s: string): (r: seq<byte>)
    requires forall i :: 0 <= i < |s| ==> s[i] < '\U{0100}'
    ensures |r| == |s|
  {
    seq(|s|, i requires 0 <= i < |s| => Code(s[i]))
  }

  /** A character, or an escape, with the bytes that it stands for. */
  datatype Unit = Unit(text: seq<byte>, bytes: seq<byte>)

  function Texts(us: seq<Unit>): seq<byte> {
    if us == [] then [] else us[0].text + Texts(us[1..])
  }

  function Meant(us: seq<Unit>): seq<byte> {
    if us == [] then [] else us[0].bytes + Meant(us[1..])
  }

  predicate HexDigit(c: byte) {
    Code('0') <= c <= Code('9') || Code('a') <= c <= Code('f') || Code('A') <= c <= Code('F')
  }

  function HexValue(c: byte): nat
    requires HexDigit(c)
  {
    if c <= Code('9') then c - Code('0') else if c <= Code('F') then c - Code('A') + 10 else c - Code('a') + 10
  }

  /** A backslash, a `u` and four more bytes. */
  predicate UForm(t: seq<byte>) {
    |t| == 6 && t[0] == Code('\\') && t[1] == Code('u')
  }

  predicate UEscape(t: seq<byte>) {
    UForm(t) && HexDigit(t[2]) && HexDigit(t[3]) && HexDigit(t[4]) && HexDigit(t[5])
  }

  function UValue(t: seq<byte>): nat
    requires UEscape(t)
  {
    4096 * HexValue(t[2]) + 256 * HexValue(t[3]) + 16 * HexValue(t[4]) + HexValue(t[5])
  }

  /** UTF-8 (the table in section 3 of RFC 3629). */
  function Encoded(cp: nat): seq<byte>
    requires cp <= 0x10FFFF
  {
    if cp <= 0x7F then [cp]
    else if cp <= 0x7FF then [0xC0 + cp / 64, 0x80 + cp % 64]
    else if cp <= 0xFFFF then [0xE0 + cp / 4096, 0x80 + cp / 64 % 64, 0x80 + cp % 64]
    else [0xF0 + cp / 262144, 0x80 + cp / 4096 % 64, 0x80 + cp / 64 % 64, 0x80 + cp % 64]
  }

  predicate Plain(u: Unit) {
    |u.text| == 1 && u.text[0] != Code('\\') && u.bytes == u.text
  }

  /** The escapes of one letter. */
  predicate Letter(u: Unit) {
    || u == Unit(Ascii("\\\""), Ascii("\""))
    || u == Unit(Ascii("\\\\"), Ascii("\\"))
    || u == Unit(Ascii("\\/"), Ascii("/"))
    || u == Unit(Ascii("\\b"), [8])
    || u == Unit(Ascii("\\f"), [12])
    || u == Unit(Ascii("\\n"), [10])
    || u == Unit(Ascii("\\r"), [13])
    || u == Unit(Ascii("\\t"), [9])
  }

  /** One code unit that is no surrogate. */
  predicate Single(u: Unit) {
    UEscape(u.text) && !(0xD800 <= UValue(u.text) <= 0xDFFF) && u.bytes == Encoded(UValue(u.text))
  }

  /** A high surrogate and a low one (section 2.1 of RFC 2781). */
  predicate Pair(u: Unit) {
    && |u.text| == 12 && UEscape(u.text[..6]) && UEscape(u.text[6..])
    && 0xD800 <= UValue(u.text[..6]) <= 0xDBFF && 0xDC00 <= UValue(u.text[6..]) <= 0xDFFF
    && u.bytes == Encoded(0x10000 + 1024 * (UValue(u.text[..6]) - 0xD800) + (UValue(u.text[6..]) - 0xDC00))
  }

  /** What RFC 8259 allows. */
  predicate Standard(u: Unit) {
    (Plain(u) && u.text[0] >= 32 && u.text[0] != Code('"')) || Letter(u) || Single(u) || Pair(u)
  }

  /** What the parser takes, too: control characters, a quote that is in no escape, and four bytes that are no digits, for U+0000. */
  predicate Lax(u: Unit) {
    Plain(u) || Letter(u) || Single(u) || Pair(u) || (UForm(u.text) && !UEscape(u.text) && u.bytes == [0])
  }

  predicate AllStandard(us: seq<Unit>) {
    forall i :: 0 <= i < |us| ==> Standard(us[i])
  }

  predicate AllLax(us: seq<Unit>) {
    forall i :: 0 <= i < |us| ==> Lax(us[i])
  }

  /** The bytes `b` stand for, with a backslash in the last place escaping the closing quote. */
  ghost predicate Reads(b: seq<byte>, bytes: seq<byte>) {
    exists us: seq<Unit> :: AllLax(us) && ((Texts(us) == b && Meant(us) == bytes)
                                           || (Texts(us) + Ascii("\\") == b && Meant(us) + Ascii("\"") == bytes))
  }

  /** Looking for the closing quote, two bytes are passed over at each backslash. */
  predicate Closed(b: seq<byte>) {
    || b == []
    || (b[0] == Code('\\') && |b| > 1 && Closed(b[2..]))
    || (b[0] != Code('\\') && b[0] != Code('"') && Closed(b[1..]))
  }

  /** Standard strings are closed where they end. */
  lemma {:induction false} StandardCloses(us: seq<Unit>)
    requires AllStandard(us)
    ensures Closed(Texts(us)) && AllLax(us)
  {
    if us != [] {
      StandardCloses(us[1..]);
      UnitCloses(us[0], Texts(us[1..]));
    }
  }

  lemma UnitCloses(u: Unit, tail: seq<byte>)
    requires Standard(u) && Closed(tail)
    ensures Closed(u.text + tail)
  {
    var s := u.text + tail;
    if Plain(u) {
      assert s[1..] == tail;
    } else if Letter(u) {
      assert s[2..] == tail;
    } else if Single(u) {
      UCloses(u.text, tail);
    } else {
      UCloses(u.text[6..], tail);
      UCloses(u.text[..6], u.text[6..] + tail);
      assert s == u.text[..6] + (u.text[6..] + tail);
    }
  }

  lemma UCloses(t: seq<byte>, tail: seq<byte>)
    requires UEscape(t) && Closed(tail)
    ensures Closed(t + tail)
  {
    var t5, t4, t3 := t[5..] + tail, t[4..] + tail, t[3..] + tail;
    assert t5[1..] == tail && t4[1..] == t5 && t3[1..] == t4;
    assert Closed(t5);
    assert Closed(t4);
    assert Closed(t3);
    assert (t[2..] + tail)[1..] == t3;
    assert Closed(t[2..] + tail);
    assert (t + tail)[2..] == t[2..] + tail;
  }
}
