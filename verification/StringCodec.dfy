/**
 JSON string literals: what `parse_string` makes of one in two passes, what
 `print_string_ptr` writes for one in two passes, and how the two undo each
 other. Texts are what is left of the input at the parser's offset.
 */
module StringCodec {
  import opened Bytes
  import opened Utf

  /** A parser's outcome, with the text left at the offset where it stopped. */
  datatype Parse<T> = Ok(value: T, rest: seq<byte>) | Err(rest: seq<byte>)

  // ---- parse_string, first pass

  datatype Close = Unclosed | Close(at: nat, skipped: nat)

  function Behind(n: nat, pairs: nat, c: Close): Close {
    match c
    case Unclosed => Unclosed
    case Close(at, skipped) => Close(n + at, pairs + skipped)
  }

  /** Where the closing quote is, stepping over two bytes at each backslash, and how many of those steps there were. */
  function FindClose(s: seq<byte>): (c: Close)
    ensures c.Close? ==> c.at < |s| && s[c.at] == QUOTE
  {
    if s == [] then Unclosed
    else if s[0] == QUOTE then Close(0, 0)
    else if s[0] == BACKSLASH then
      if |s| < 2 then Unclosed else Behind(2, 1, FindClose(s[2..]))
    else Behind(1, 0, FindClose(s[1..]))
  }

  // ---- parse_string, second pass

  datatype Step = BadStep | Step(bytes: seq<byte>, used: nat)

  /** The byte that a one-letter escape stands for. */
  function Unescape(c: byte): (b: CString)
    ensures b.Chars? ==> |b.chars| == 1
  {
    if c == 98 then Chars([8])
    else if c == 102 then Chars([12])
    else if c == 110 then Chars([NEWLINE])
    else if c == 114 then Chars([RETURN])
    else if c == 116 then Chars([TAB])
    else if c == QUOTE || c == BACKSLASH || c == SLASH then Chars([c])
    else NoString
  }

  /**
   One turn of the second pass at the front of `b`, the rest of the literal up
   to its closing quote. That quote is what a backslash in the last place reads.
   */
  function DecodeStep(b: seq<byte>): (r: Step)
    requires b != []
    ensures r.Step? ==> 0 < r.used <= |b| + 1 && r.bytes != []
  {
    if b[0] != BACKSLASH then Step([b[0]], 1)
    else
      var c := if |b| > 1 then b[1] else QUOTE;
      if c == LOWER_U then
        var lit := Utf16Literal(b);
        if lit.BadLiteral? then BadStep else Step(Utf8(lit.codepoint), lit.used)
      else if Unescape(c).Chars? then Step(Unescape(c).chars, 2)
      else BadStep
  }

  /** What is left of `b` once `n` bytes are used. */
  function After(b: seq<byte>, n: nat): seq<byte> {
    if n <= |b| then b[n..] else []
  }

  datatype Decoding = Bad(at: nat) | Good(bytes: seq<byte>)

  function Prepend(step: Step, d: Decoding): Decoding
    requires step.Step?
  {
    match d
    case Bad(at) => Bad(step.used + at)
    case Good(bytes) => Good(step.bytes + bytes)
  }

  /** The bytes a literal stands for, or where the bad escape in it is. */
  function Decode(b: seq<byte>): (d: Decoding)
    ensures d.Bad? ==> d.at < |b|
    decreases |b|
  {
    if b == [] then Good([])
    else
      var step := DecodeStep(b);
      if step.BadStep? then Bad(0) else Prepend(step, Decode(After(b, step.used)))
  }

  /** `parse_string` on a text that is not empty. */
  function ParseString(s: seq<byte>): (r: Parse<CString>)
    requires s != []
    ensures |r.rest| < |s|
    ensures r.Ok? ==> r.value.Chars?
  {
    if s[0] != QUOTE then Err(s[1..])
    else
      var body := s[1..];
      var close := FindClose(body);
      if close.Unclosed? then Err(body)
      else
        match Decode(body[..close.at])
        case Bad(at) => Err(body[at..])
        case Good(bytes) => Ok(Chars(BeforeNul(bytes)), body[close.at + 1..])
  }

  /** How many bytes `parse_string` allocates for the literal whose closing quote is found at `close`. */
  function AllocationSize(close: Close): int
    requires close.Close?
  {
    close.at + 1 - close.skipped + 1
  }

  // ---- the first pass reserves enough for the second

  /** How many of the first pass's two-byte steps, taken from `i` on, start before `pos`. */
  function PairStarts(b: seq<byte>, i: nat, pos: nat): nat
    requires pos <= |b|
    decreases |b| - i
  {
    if i >= pos then 0
    else if b[i] == BACKSLASH then 1 + PairStarts(b, i + 2, pos)
    else PairStarts(b, i + 1, pos)
  }

  lemma {:induction false} PairStartsNext(b: seq<byte>, i: nat, k: nat)
    requires k < |b|
    ensures PairStarts(b, i, k) <= PairStarts(b, i, k + 1) <= PairStarts(b, i, k) + 1
    ensures b[k] != BACKSLASH ==> PairStarts(b, i, k + 1) == PairStarts(b, i, k)
    decreases |b| - i
  {
    if i < k {
      PairStartsNext(b, if b[i] == BACKSLASH then i + 2 else i + 1, k);
    }
  }

  /** No two backslashes in a row both start a pair. */
  lemma {:induction false} PairStartsTwo(b: seq<byte>, i: nat, k: nat)
    requires k + 2 <= |b|
    ensures PairStarts(b, i, k + 2) <= PairStarts(b, i, k) + 1
    decreases |b| - i
  {
    if i < k {
      PairStartsTwo(b, if b[i] == BACKSLASH then i + 2 else i + 1, k);
    } else if i == k {
      assert PairStarts(b, k + 2, k + 2) == 0;
      PairStartsNext(b, k + 1, k + 1);
    } else if i == k + 1 {
      assert PairStarts(b, k + 3, k + 2) == 0;
    }
  }

  lemma PairStartsSix(b: seq<byte>, k: nat)
    requires k + 6 <= |b|
    ensures PairStarts(b, 0, k + 6) <= PairStarts(b, 0, k) + 3
  {
    PairStartsTwo(b, 0, k);
    PairStartsTwo(b, 0, k + 2);
    PairStartsTwo(b, 0, k + 4);
  }

  function Min(a: nat, b: nat): nat {
    if a <= b then a else b
  }

  /**
   A turn of the second pass writes no more than it uses less the pairs that
   start where it reads, in step with the first pass or not.
   */
  lemma StepFits(b: seq<byte>, k: nat)
    requires k < |b|
    requires DecodeStep(b[k..]).Step?
    ensures var step := DecodeStep(b[k..]);
            |step.bytes| + PairStarts(b, 0, Min(k + step.used, |b|)) <= step.used + PairStarts(b, 0, k)
  {
    var step := DecodeStep(b[k..]);
    PairStartsNext(b, 0, k);
    if b[k] != BACKSLASH {
    } else if step.used == 2 {
      if k + 2 <= |b| { PairStartsTwo(b, 0, k); }
    } else {
      var lit := Utf16Literal(b[k..]);
      PairStartsSix(b, k);
      if lit.used == 12 {
        PairStartsSix(b, k + 6);
      } else {
        assert lit.codepoint <= 0xFFFF;
      }
    }
  }

  lemma {:induction false} SkippedIsPairs(s: seq<byte>, i: nat, at: nat)
    requires i <= at < |s|
    requires FindClose(s[i..]).Close? && FindClose(s[i..]).at == at - i
    ensures FindClose(s[i..]).skipped == PairStarts(s[..at], i, at)
    decreases |s| - i
  {
    if s[i] == QUOTE {
    } else if s[i] == BACKSLASH {
      assert s[i..][2..] == s[i + 2..];
      SkippedIsPairs(s, i + 2, at);
    } else {
      assert s[i..][1..] == s[i + 1..];
      SkippedIsPairs(s, i + 1, at);
    }
  }

  lemma {:induction false} PairStartsSlope(b: seq<byte>, i: nat, j: nat)
    requires i <= j <= |b|
    ensures PairStarts(b, 0, j) <= PairStarts(b, 0, i) + (j - i)
    decreases j - i
  {
    hide PairStarts;
    if i < j {
      PairStartsNext(b, 0, j - 1);
      PairStartsSlope(b, i, j - 1);
    }
  }

  /** Where the second pass is after some turns, and what it has written. */
  datatype Progress = Progress(pos: nat, bytes: seq<byte>)

  function Turn(b: seq<byte>, p: Progress): Progress {
    if p.pos >= |b| then p
    else
      var step := DecodeStep(b[p.pos..]);
      if step.BadStep? then p else Progress(p.pos + step.used, p.bytes + step.bytes)
  }

  /** The second pass after `turns` turns; at a bad escape, as at the end, it stays. */
  function Pass(b: seq<byte>, turns: nat): Progress
    decreases turns
  {
    if turns == 0 then Progress(0, []) else Turn(b, Pass(b, turns - 1))
  }

  /** In step with the first pass or not, the second one has written no more than it has used, less the pairs so far. */
  lemma {:induction false} PassFits(b: seq<byte>, turns: nat)
    ensures var p := Pass(b, turns);
            p.pos <= |b| + 1 && |p.bytes| + PairStarts(b, 0, Min(p.pos, |b|)) <= p.pos
    decreases turns
  {
    hide DecodeStep;
    if turns == 0 {
      assert PairStarts(b, 0, 0) == 0;
    } else {
      var p := Pass(b, turns - 1);
      PassFits(b, turns - 1);
      if p.pos < |b| && DecodeStep(b[p.pos..]).Step? {
        StepFits(b, p.pos);
      }
    }
  }

  /** What the second pass has written after any number of turns fits, with a terminator, in what the first pass reserved. */
  lemma PassRoom(b: seq<byte>, turns: nat)
    ensures |Pass(b, turns).bytes| + 1 <= |b| + 2 - PairStarts(b, 0, |b|)
  {
    hide PairStarts, Pass;
    PassFits(b, turns);
    PairStartsSlope(b, Min(Pass(b, turns).pos, |b|), |b|);
  }

  /** What the first pass reserves for a literal, in terms of its pairs. */
  lemma Reserved(body: seq<byte>)
    requires FindClose(body).Close?
    ensures var c := FindClose(body);
            AllocationSize(c) == c.at + 2 - PairStarts(body[..c.at], 0, c.at) && c.skipped <= c.at
  {
    var at := FindClose(body).at;
    assert body[0..] == body;
    SkippedIsPairs(body, 0, at);
    PairStartsSlope(body[..at], 0, at);
    assert PairStarts(body[..at], 0, 0) == 0;
  }

  /** Every prefix of the output, whether the literal is decoded to its end or not, fits with its terminator. */
  lemma SizeSuffices(body: seq<byte>, turns: nat)
    requires FindClose(body).Close?
    ensures var c := FindClose(body);
            |Pass(body[..c.at], turns).bytes| + 1 <= AllocationSize(c)
  {
    Reserved(body);
    PassRoom(body[..FindClose(body).at], turns);
  }

  /** What the rest of a literal makes of what came before it. */
  function Continue(p: Progress, d: Decoding): Decoding {
    match d
    case Bad(at) => Bad(p.pos + at)
    case Good(more) => Good(p.bytes + more)
  }

  /** The second pass computes the decoding: what is written so far is the front of it. */
  lemma {:induction false} PassDecodes(b: seq<byte>, turns: nat)
    ensures var p := Pass(b, turns);
            Continue(p, Decode(After(b, p.pos))) == Decode(b)
    decreases turns
  {
    hide DecodeStep, Decode, After, Pass, Turn;
    if turns == 0 {
      PassStarts(b);
      NothingRead(b);
    } else {
      var p := Pass(b, turns - 1);
      PassTurns(b, turns - 1);
      PassDecodes(b, turns - 1);
      if p.pos < |b| {
        TurnDecodes(b, p);
      } else {
        TurnStays(b, p);
      }
    }
  }

  lemma TurnStays(b: seq<byte>, p: Progress)
    requires p.pos >= |b|
    ensures Turn(b, p) == p
  {}

  lemma NothingRead(b: seq<byte>)
    ensures Continue(Progress(0, []), Decode(After(b, 0))) == Decode(b)
  {
    hide Decode;
    assert After(b, 0) == b;
    if Decode(b).Good? { assert [] + Decode(b).bytes == Decode(b).bytes; }
  }

  lemma TurnDecodes(b: seq<byte>, p: Progress)
    requires p.pos < |b|
    ensures Continue(p, Decode(After(b, p.pos))) == Continue(Turn(b, p), Decode(After(b, Turn(b, p).pos)))
    ensures DecodeStep(b[p.pos..]).BadStep? ==> Decode(After(b, p.pos)) == Bad(0)
  {
    hide DecodeStep;
    var step := DecodeStep(b[p.pos..]);
    if step.Step? {
      assert After(b[p.pos..], step.used) == After(b, p.pos + step.used);
      var d := Decode(After(b, p.pos + step.used));
      if d.Good? {
        assert p.bytes + (step.bytes + d.bytes) == p.bytes + step.bytes + d.bytes;
      }
    }
  }

  lemma PassStarts(b: seq<byte>)
    ensures Pass(b, 0) == Progress(0, [])
  {}

  lemma PassTurns(b: seq<byte>, turns: nat)
    ensures Pass(b, turns + 1) == Turn(b, Pass(b, turns))
  {}

  /** Where the second pass stops, the literal is bad, */
  lemma PassStops(b: seq<byte>, turns: nat)
    requires var p := Pass(b, turns); p.pos < |b| && DecodeStep(b[p.pos..]).BadStep?
    ensures Decode(b) == Bad(Pass(b, turns).pos)
  {
    hide Pass, DecodeStep;
    PassDecodes(b, turns);
    TurnDecodes(b, Pass(b, turns));
  }

  /** and at the end what is written is what it stands for. */
  lemma PassEnds(b: seq<byte>, turns: nat)
    requires Pass(b, turns).pos >= |b|
    ensures Decode(b) == Good(Pass(b, turns).bytes)
  {
    hide Pass;
    PassDecodes(b, turns);
    var p := Pass(b, turns);
    assert After(b, p.pos) == [];
    assert p.bytes + [] == p.bytes;
  }

  // ---- print_string_ptr

  /** The letter of a one-letter escape. */
  function ShortEscape(b: byte): CString {
    if b == QUOTE || b == BACKSLASH then Chars([b])
    else if b == 8 then Chars([98])
    else if b == 12 then Chars([102])
    else if b == NEWLINE then Chars([110])
    else if b == RETURN then Chars([114])
    else if b == TAB then Chars([116])
    else NoString
  }

  /** What the first pass adds to the length for a byte. */
  function ExtraOf(b: byte): nat {
    if ShortEscape(b).Chars? then 1 else if b < 32 then 5 else 0
  }

  /** What the second pass writes for a byte. */
  function EscapeByte(b: byte): (s: seq<byte>)
    ensures |s| == 1 + ExtraOf(b)
  {
    if b > 31 && b != QUOTE && b != BACKSLASH then [b]
    else if ShortEscape(b).Chars? then [BACKSLASH] + ShortEscape(b).chars
    else [BACKSLASH, LOWER_U, 48, 48, HexDigit(b / 16), HexDigit(b % 16)]
  }

  function Extra(x: seq<byte>): nat {
    if x == [] then 0 else ExtraOf(x[0]) + Extra(x[1..])
  }

  function Escape(x: seq<byte>): seq<byte> {
    if x == [] then [] else EscapeByte(x[0]) + Escape(x[1..])
  }

  function Quoted(x: seq<byte>): seq<byte> {
    [QUOTE] + Escape(x) + [QUOTE]
  }

  /** The first pass counts exactly what the second one writes. */
  lemma {:induction false} EscapeLength(x: seq<byte>)
    ensures |Escape(x)| == |x| + Extra(x)
    ensures Extra(x) == 0 ==> Escape(x) == x
  {
    if x != [] {
      EscapeLength(x[1..]);
    }
  }

  lemma {:induction false} ExtraAppend(x: seq<byte>, b: byte)
    ensures Extra(x + [b]) == Extra(x) + ExtraOf(b)
  {
    if x == [] {
      assert (x + [b])[1..] == [];
    } else {
      assert (x + [b])[1..] == x[1..] + [b];
      ExtraAppend(x[1..], b);
    }
  }

  lemma {:induction false} EscapeAppend(x: seq<byte>, b: byte)
    ensures Escape(x + [b]) == Escape(x) + EscapeByte(b)
  {
    if x == [] {
      assert (x + [b])[1..] == [];
    } else {
      assert (x + [b])[1..] == x[1..] + [b];
      EscapeAppend(x[1..], b);
    }
  }

  lemma {:induction false} NoNulInEscape(x: seq<byte>)
    ensures NUL !in Escape(x)
  {
    if x != [] {
      NoNulInEscape(x[1..]);
    }
  }

  // ---- the decoder undoes the encoder

  lemma EscapeByteDecodes(b: byte, tail: seq<byte>)
    ensures DecodeStep(EscapeByte(b) + tail) == Step([b], |EscapeByte(b)|)
  {
    var s := EscapeByte(b) + tail;
    if b <= 31 && ShortEscape(b) == NoString {
      assert s[2..6] == [48, 48, HexDigit(b / 16), HexDigit(b % 16)];
      assert HexDigits(s[2..6]);
      assert Utf16Literal(s) == Literal(6, b);
      assert Utf8(b) == [b];
    }
  }

  lemma {:induction false} DecodeEscape(x: seq<byte>)
    ensures Decode(Escape(x)) == Good(x)
  {
    if x != [] {
      EscapeByteDecodes(x[0], Escape(x[1..]));
      assert After(Escape(x), |EscapeByte(x[0])|) == Escape(x[1..]);
      DecodeEscape(x[1..]);
      assert [x[0]] + x[1..] == x;
    }
  }

  lemma EscapeByteScans(b: byte, tail: seq<byte>)
    ensures var c, n := FindClose(EscapeByte(b) + tail), |EscapeByte(b)|;
            && (c.Unclosed? <==> FindClose(tail).Unclosed?)
            && (c.Close? ==> c.at == n + FindClose(tail).at)
  {
    hide FindClose;
    if |EscapeByte(b)| == 1 {
      StepOver(b, tail);
    } else if |EscapeByte(b)| == 2 {
      StepOverPair(EscapeByte(b)[1], tail);
      assert EscapeByte(b) + tail == [BACKSLASH, EscapeByte(b)[1]] + tail;
    } else {
      var d3 := [HexDigit(b % 16)] + tail;
      var d2 := [HexDigit(b / 16)] + d3;
      var d1 := [48] + d2;
      StepOver(HexDigit(b % 16), tail);
      StepOver(HexDigit(b / 16), d3);
      StepOver(48, d2);
      StepOver(48, d1);
      StepOverPair(LOWER_U, [48] + d1);
      assert EscapeByte(b) + tail == [BACKSLASH, LOWER_U] + ([48] + d1);
    }
  }

  lemma StepOver(c: byte, tail: seq<byte>)
    requires c != QUOTE && c != BACKSLASH
    ensures FindClose([c] + tail) == Behind(1, 0, FindClose(tail))
  {
    assert ([c] + tail)[1..] == tail;
  }

  lemma StepOverPair(c: byte, tail: seq<byte>)
    ensures FindClose([BACKSLASH, c] + tail) == Behind(2, 1, FindClose(tail))
  {
    assert ([BACKSLASH, c] + tail)[2..] == tail;
  }

  lemma {:induction false} FindCloseEscape(x: seq<byte>, rest: seq<byte>)
    ensures FindClose(Escape(x) + [QUOTE] + rest).Close?
    ensures FindClose(Escape(x) + [QUOTE] + rest).at == |Escape(x)|
  {
    if x == [] {
      assert Escape(x) + [QUOTE] + rest == [QUOTE] + rest;
    } else {
      var tail := Escape(x[1..]) + [QUOTE] + rest;
      assert Escape(x) + [QUOTE] + rest == EscapeByte(x[0]) + tail;
      EscapeByteScans(x[0], tail);
      FindCloseEscape(x[1..], rest);
    }
  }

  /** A printed string, whatever follows it, parses back to its bytes (up to the first NUL, where a C string ends). */
  lemma ParseQuoted(x: seq<byte>, rest: seq<byte>)
    ensures ParseString(Quoted(x) + rest) == Ok(Chars(BeforeNul(x)), rest)
  {
    var s := Quoted(x) + rest;
    var body := Escape(x) + [QUOTE] + rest;
    assert s[1..] == body;
    FindCloseEscape(x, rest);
    assert body[..|Escape(x)|] == Escape(x);
    DecodeEscape(x);
    assert body[|Escape(x)| + 1..] == rest;
  }
}
