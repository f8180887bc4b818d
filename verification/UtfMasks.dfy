/**
 The bytes and code points of `Utf` as the original computes them: with masks
 and shifts on 32-bit words.
 */
module UtfMasks {
  import opened Words
  import opened Utf

  /** A continuation byte, and the six bits that it takes off. */
  lemma ContinuationMask(codepoint: bv32)
    ensures Value((codepoint | 0x80) & 0xBF) == Continuation(Value(codepoint))
    ensures Value(codepoint >> 6) == Value(codepoint) / 64
  {
    SixOver(codepoint);
    hide Value, Half, Over, Low;
    MaskedValue(codepoint);
  }

  lemma SixOver(codepoint: bv32)
    ensures Half(Over(codepoint)) == codepoint >> 6
  {}

  lemma MaskedValue(codepoint: bv32)
    ensures Value(Masked(codepoint)) == Continuation(Value(codepoint))
    ensures Value(Half(Over(codepoint))) == Value(codepoint) / 64
  {
    MaskedBits(codepoint);
    Two();
    hide Value, Five, Low, Half, Over, Masked;
    SixBits(codepoint);
    SixBits(Masked(codepoint));
  }

  lemma Two()
    ensures Value(2) == 2
  {
    assert Five(2) == 2;
    SmallValue(2);
  }

  function Masked(codepoint: bv32): bv32 {
    (codepoint | 0x80) & 0xBF
  }

  lemma MaskedBits(codepoint: bv32)
    ensures var w := Masked(codepoint);
            Half(Over(w)) == 2 && Five(w) == Five(codepoint) && Low(Over(w)) == Low(Over(codepoint))
  {}

  /** The lead byte, marked with the number of bytes if there are more. */
  lemma LeadMask(top: bv32)
    ensures top < 0x80 ==> Value(top) < 0x80 && Value(top & 0x7F) == Lead(Value(top), 1)
    ensures top < 0x20 ==> Value(top) < 0x20 && Value((top | 0xC0) & 0xFF) == Lead(Value(top), 2)
    ensures top < 0x10 ==> Value(top) < 0x10 && Value((top | 0xE0) & 0xFF) == Lead(Value(top), 3)
    ensures top < 0x08 ==> Value(top) < 0x08 && Value((top | 0xF0) & 0xFF) == Lead(Value(top), 4)
  {
    SmallFive(top);
    hide Value, Five, Over;
    SmallValue(top);
    if top < 0x20 { Marking(top, 0xC0); }
    if top < 0x10 { Marking(top, 0xE0); }
    if top < 0x08 { Marking(top, 0xF0); }
  }

  lemma SmallFive(top: bv32)
    ensures top < 0x80 ==> Five(Over(top)) < 4 && top & 0x7F == top
    ensures top < 0x10 ==> Five(top) < 0x10
    ensures top < 0x08 ==> Five(top) < 0x08
  {}

  predicate Free(top: bv32, mark: bv32) {
    (mark == 0xC0 && top < 0x20) || (mark == 0xE0 && top < 0x10) || (mark == 0xF0 && top < 0x08)
  }

  function Marked(top: bv32, mark: bv32): bv32 {
    (top | mark) & 0xFF
  }

  /** The mark takes places that the word leaves free. */
  lemma Marking(top: bv32, mark: bv32)
    requires Free(top, mark)
    ensures Value((top | mark) & 0xFF) == Value(top) + if mark == 0xC0 then 0xC0 else if mark == 0xE0 then 0xE0 else 0xF0
  {
    MarkedBits(top, mark);
    assert Marked(top, mark) == (top | mark) & 0xFF;
    hide Value, Five, Over, Marked;
    SmallValue(top);
    SmallValue(Marked(top, mark));
  }

  lemma MarkedBits(top: bv32, mark: bv32)
    requires Free(top, mark)
    ensures var w := Marked(top, mark);
            && top < 32 && w < 256 && Five(Over(w)) == (if mark == 0xC0 then 6 else 7)
            && Five(w) == Five(top) + if mark == 0xF0 then 16 else 0
  {}

  /** The code point of a surrogate pair. */
  function Pair(first: bv32, second: bv32): bv32 {
    0x10000 + (((first & 0x3FF) << 10) | (second & 0x3FF))
  }

  lemma SurrogateMask(first: bv32, second: bv32)
    ensures Value(0x10000 + (((first & 0x3FF) << 10) | (second & 0x3FF))) == CombineSurrogates(Value(first), Value(second))
  {
    PairValue(first, second);
    hide Value;
  }

  lemma PairValue(first: bv32, second: bv32)
    ensures Value(Pair(first, second)) == CombineSurrogates(Value(first), Value(second))
  {
    var w, five := Pair(first, second), Lowest(Over(first));
    PairBits(first, second);
    hide Value, Five, Over, Lowest, Next, Pair;
    TenBits(w);
    TenRest(first);
    TenRest(second);
    FiveBits(Over(Over(w)));
    SmallValue(five);
    Increment(five);
    Increment(Next(five));
  }

  lemma TenRest(w: bv32)
    ensures Value(w) % 1024 == 32 * Five(Over(w)) + Five(w)
  {
    hide Value, Five, Over;
    TenBits(w);
  }

  function Lowest(w: bv32): bv32 {
    w & 31
  }

  lemma PairBits(first: bv32, second: bv32)
    ensures var w, five := Pair(first, second), Lowest(Over(first));
            && Five(w) == Five(second) && Five(Over(w)) == Five(Over(second))
            && Five(Over(Over(w))) == Five(first)
            && five < 32 && Five(five) == Five(Over(first))
            && Next(five) < 64 && Over(Over(Over(w))) == Next(Next(five))
  {}
}
