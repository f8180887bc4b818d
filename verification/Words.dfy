/** Unsigned 32-bit words, and the number that their bits spell. */
module Words {
  function Low(w: bv32): (b: nat)
    ensures b < 2
  {
    if w & 1 == 0 then 0 else 1
  }

  function Half(w: bv32): bv32 {
    w >> 1
  }

  function Value(w: bv32): nat {
    HalfSmaller(w);
    if w == 0 then 0 else 2 * Value(Half(w)) + Low(w)
  }

  lemma HalfSmaller(w: bv32)
    ensures w != 0 ==> Half(w) < w
    ensures w == 0 ==> Half(w) == 0 && Low(w) == 0
  {}

  lemma Unfold(w: bv32)
    ensures Value(w) == 2 * Value(Half(w)) + Low(w)
  {
    HalfSmaller(w);
    hide Half, Low;
  }

  function Digit(w: bv32, place: bv32): (b: nat)
    ensures b < 2
  {
    if w & place == 0 then 0 else 1
  }

  /** What the lowest five bits spell, */
  function Five(w: bv32): (n: nat)
    ensures n < 32
  {
    Digit(w, 1) + 2 * Digit(w, 2) + 4 * Digit(w, 4) + 8 * Digit(w, 8) + 16 * Digit(w, 16)
  }

  /** and the bits above them. */
  function Over(w: bv32): bv32 {
    w >> 5
  }

  /** The quotient and the remainder of a division by 32 are a shift and a mask. */
  lemma FiveBits(w: bv32)
    ensures Value(w) == 32 * Value(Over(w)) + Five(w)
  {
    Halves(w);
    hide Half, Low, Value, Digit, Over;
    var w1 := Half(w);
    var w2 := Half(w1);
    var w3 := Half(w2);
    var w4 := Half(w3);
    Unfold(w);
    Unfold(w1);
    Unfold(w2);
    Unfold(w3);
    Unfold(w4);
  }

  lemma Halves(w: bv32)
    ensures Half(Half(Half(Half(Half(w))))) == Over(w)
    ensures Low(w) == Digit(w, 1) && Low(Half(w)) == Digit(w, 2) && Low(Half(Half(w))) == Digit(w, 4)
    ensures Low(Half(Half(Half(w)))) == Digit(w, 8) && Low(Half(Half(Half(Half(w))))) == Digit(w, 16)
  {}

  lemma SixBits(w: bv32)
    ensures Value(w) == 64 * Value(Half(Over(w))) + 32 * Low(Over(w)) + Five(w)
  {
    hide Five, Low, Half, Over, Value;
    FiveBits(w);
    Unfold(Over(w));
  }

  lemma TenBits(w: bv32)
    ensures Value(w) == 1024 * Value(Over(Over(w))) + 32 * Five(Over(w)) + Five(w)
  {
    hide Five, Over, Value;
    FiveBits(w);
    FiveBits(Over(w));
  }

  lemma SmallValue(w: bv32)
    ensures w < 32 ==> Value(w) == Five(w)
    ensures w < 256 ==> Value(w) == 32 * Five(Over(w)) + Five(w)
  {
    NothingOver(w);
    hide Five, Over;
    FiveBits(w);
    FiveBits(Over(w));
  }

  lemma NothingOver(w: bv32)
    ensures w < 32 ==> Over(w) == 0
    ensures w < 256 ==> Over(Over(w)) == 0
  {}

  function Next(w: bv32): bv32
    requires w < 64
  {
    w + 1
  }

  lemma {:induction false} Increment(w: bv32)
    requires w < 64
    ensures Value(Next(w)) == Value(w) + 1
    decreases w
  {
    HalfSmaller(w);
    HalfNext(w);
    hide Half, Low, Value, Next;
    Unfold(w);
    Unfold(Next(w));
    if w == 0 {
      Unfold(0);
    } else if Low(w) == 1 {
      Increment(Half(w));
    }
  }

  lemma HalfNext(w: bv32)
    requires w < 64
    ensures Low(w) == 0 ==> Low(Next(w)) == 1 && Half(Next(w)) == Half(w)
    ensures Low(w) == 1 ==> Half(w) < 64 && Low(Next(w)) == 0 && Half(Next(w)) == Next(Half(w))
  {}
}
