/**
 The checksum as a remainder. Polynomials over the field of two elements are
 the sets of their exponents; the register is what is left of the message,
 times x^32, when it is divided by the generator of CRC-32 (section 8.1.1.6.2
 of ITU-T V.42).
 */
module CrcPolynomial {
  import opened Crc

  function Sum(p: set<nat>, q: set<nat>): set<nat> {
    (p - q) + (q - p)
  }

  /** Times x^n. */
  function Moved(p: set<nat>, n: nat): set<nat> {
    set e | e in p :: e + n
  }

  /** The product with a polynomial that is given by its coefficients, the constant one first. */
  function Product(p: seq<bool>, q: set<nat>): set<nat> {
    if p == [] then {} else Sum(if p[0] then q else {}, Moved(Product(p[1..], q), 1))
  }

  /** The bits are coefficients, the first one that of the highest power. */
  function Poly(bits: seq<bool>): set<nat> {
    set i: nat | i < |bits| && bits[i] :: |bits| - 1 - i
  }

  const GENERATOR: set<nat> := {32, 26, 23, 22, 16, 12, 11, 10, 8, 7, 5, 4, 2, 1, 0}

  /** The `n` lowest bits of a word, the lowest first. */
  function LowBits(c: bv32, n: nat): (r: seq<bool>)
    ensures |r| == n
  {
    if n == 0 then [] else [Odd(c)] + LowBits(Right(c), n - 1)
  }

  function WordBits(c: bv32): (r: seq<bool>)
    ensures |r| == 32
  {
    LowBits(c, 32)
  }

  // ---- sums and products

  lemma InPoly(bits: seq<bool>, e: nat)
    ensures e in Poly(bits) <==> e < |bits| && bits[|bits| - 1 - e]
  {
    if e < |bits| && bits[|bits| - 1 - e] {
      var i := |bits| - 1 - e;
      assert i < |bits| && bits[i] && |bits| - 1 - i == e;
    }
  }

  function Xor(x: seq<bool>, y: seq<bool>): (r: seq<bool>)
    requires |x| == |y|
    ensures |r| == |x|
  {
    seq(|x|, i requires 0 <= i < |x| => x[i] != y[i])
  }

  lemma PolyOfXor(x: seq<bool>, y: seq<bool>)
    requires |x| == |y|
    ensures Poly(Xor(x, y)) == Sum(Poly(x), Poly(y))
  {
    hide Poly;
    forall e: nat ensures e in Poly(Xor(x, y)) <==> e in Sum(Poly(x), Poly(y)) {
      InPoly(Xor(x, y), e);
      InPoly(x, e);
      InPoly(y, e);
    }
  }

  /** Bits behind the others: those move up. */
  lemma PolyBehind(x: seq<bool>, y: seq<bool>)
    ensures Poly(x + y) == Sum(Moved(Poly(x), |y|), Poly(y))
  {
    hide Poly;
    forall e: nat ensures e in Poly(x + y) <==> e in Sum(Moved(Poly(x), |y|), Poly(y)) {
      InPoly(x + y, e);
      InPoly(y, e);
      if e >= |y| {
        InPoly(x, e - |y|);
        InMoved(Poly(x), |y|, e);
      }
    }
  }

  lemma InMoved(p: set<nat>, n: nat, e: nat)
    ensures e in Moved(p, n) <==> e >= n && e - n in p
  {
    if e >= n && e - n in p { assert (e - n) + n in Moved(p, n); }
  }

  lemma MovedSum(p: set<nat>, q: set<nat>, n: nat)
    ensures Moved(Sum(p, q), n) == Sum(Moved(p, n), Moved(q, n))
  {
    hide Moved;
    forall e: nat ensures e in Moved(Sum(p, q), n) <==> e in Sum(Moved(p, n), Moved(q, n)) {
      InMoved(Sum(p, q), n, e);
      InMoved(p, n, e);
      InMoved(q, n, e);
    }
  }

  lemma MovedTwice(p: set<nat>, m: nat, n: nat)
    ensures Moved(Moved(p, m), n) == Moved(Moved(p, n), m)
  {
    hide Moved;
    forall e: nat ensures e in Moved(Moved(p, m), n) <==> e in Moved(Moved(p, n), m) {
      InMoved(Moved(p, m), n, e);
      InMoved(Moved(p, n), m, e);
      if e >= m + n {
        InMoved(p, m, e - n);
        InMoved(p, n, e - m);
      } else if e >= n {
        InMoved(p, m, e - n);
      } 
      if e >= m { InMoved(p, n, e - m); }
    }
  }

  function AddCoefficients(p: seq<bool>, q: seq<bool>): seq<bool> {
    if p == [] then q else if q == [] then p else [p[0] != q[0]] + AddCoefficients(p[1..], q[1..])
  }

  lemma {:induction false} ProductOfSum(p: seq<bool>, q: seq<bool>, g: set<nat>)
    ensures Product(AddCoefficients(p, q), g) == Sum(Product(p, g), Product(q, g))
  {
    hide Moved;
    if p != [] && q != [] {
      ProductOfSum(p[1..], q[1..], g);
      MovedSum(Product(p[1..], g), Product(q[1..], g), 1);
      assert AddCoefficients(p, q)[1..] == AddCoefficients(p[1..], q[1..]);
    }
  }

  /** A multiple of the generator that is not zero has a power that no remainder has. */
  lemma {:induction false} MultipleIsHigh(q: seq<bool>, g: set<nat>) returns (e: nat)
    requires 32 in g && forall i :: i in g ==> i <= 32
    ensures Product(q, g) == {} || (e >= 32 && e in Product(q, g))
  {
    hide Moved;
    e := 32;
    if q != [] {
      var p := Product(q[1..], g);
      var d := MultipleIsHigh(q[1..], g);
      InMoved(p, 1, d + 1);
      if p == {} {
        MovedNothing();
      } else {
        e := d + 1;
      }
    }
  }

  lemma MovedNothing()
    ensures Moved({}, 1) == {}
  {}

  // ---- one bit

  lemma {:induction false} MixBits(a: bv32, b: bv32, n: nat)
    ensures LowBits(Mix(a, b), n) == Xor(LowBits(a, n), LowBits(b, n))
    decreases n
  {
    hide Mix, Right, Odd;
    if n > 0 {
      OddLinear(a, b);
      RightLinear(a, b);
      MixBits(Right(a), Right(b), n - 1);
    }
  }

  /** No bit from the `n`th on. */
  predicate Fits(c: bv32, n: nat) {
    if n == 0 then c == 0 else Fits(Right(c), n - 1)
  }

  lemma FourFit(c: bv32, n: nat)
    requires n >= 4
    ensures Fits(c, n) <==> Fits(Right(Right(Right(Right(c)))), n - 4)
  {
    hide Right;
    assert Fits(Right(Right(c)), n - 2) <==> Fits(Right(Right(Right(Right(c)))), n - 4);
  }

  function Right4(c: bv32): bv32 {
    c >> 4
  }

  lemma AllFit(c: bv32)
    ensures Fits(c, 32)
  {
    var c1 := Right4(c);
    var c2 := Right4(c1);
    var c3 := Right4(c2);
    var c4 := Right4(c3);
    var c5 := Right4(c4);
    var c6 := Right4(c5);
    var c7 := Right4(c6);
    NothingAbove(c);
    FourRights(c);
    FourRights(c1);
    FourRights(c2);
    FourRights(c3);
    FourRights(c4);
    FourRights(c5);
    FourRights(c6);
    FourRights(c7);
    hide Right, Right4;
    FourFit(c7, 4);
    FourFit(c6, 8);
    FourFit(c5, 12);
    FourFit(c4, 16);
    FourFit(c3, 20);
    FourFit(c2, 24);
    FourFit(c1, 28);
    FourFit(c, 32);
  }

  lemma NothingAbove(c: bv32)
    ensures Right4(Right4(Right4(Right4(Right4(Right4(Right4(Right4(c)))))))) == 0
  {}

  lemma {:induction false} TopBitClear(c: bv32, n: nat)
    requires Fits(c, n)
    ensures LowBits(c, n + 1) == LowBits(c, n) + [false]
    decreases n
  {
    if n == 0 {
      assert !Odd(0);
      assert LowBits(Right(c), 0) == [];
    } else {
      hide Right, Odd;
      TopBitClear(Right(c), n - 1);
    }
  }

  lemma RightBits(c: bv32)
    ensures WordBits(Right(c)) == WordBits(c)[1..] + [false] && WordBits(c)[0] == Odd(c)
  {
    hide Right, Odd;
    AllFit(c);
    TopBitClear(Right(c), 31);
  }

  lemma {:induction false} ZeroBits(n: nat)
    ensures forall i :: 0 <= i < n ==> !LowBits(0, n)[i]
  {
    if n > 0 {
      assert Right(0) == 0;
      ZeroBits(n - 1);
    }
  }

  lemma BitBits(b: bool)
    ensures WordBits(Bit(b))[0] == b && forall i :: 1 <= i < 32 ==> !WordBits(Bit(b))[i]
  {
    assert Right(Bit(b)) == 0 && Odd(Bit(b)) == b;
    ZeroBits(31);
    hide Right, Bit, Odd;
  }

  predicate At(c: bv32, place: bv32) {
    c & place != 0
  }

  lemma Nibble(c: bv32, n: nat)
    requires n >= 4
    ensures LowBits(c, n) == [Odd(c), At(c, 2), At(c, 4), At(c, 8)] + LowBits(Right4(c), n - 4)
  {
    var c1, c2, c3 := Right(c), Right(Right(c)), Right(Right(Right(c)));
    SecondBit(c);
    ThirdBit(c);
    FourthBit(c);
    FourRights(c);
    hide Right, Odd, At, Right4;
    assert LowBits(c2, n - 2) == [Odd(c2), Odd(c3)] + LowBits(Right4(c), n - 4);
  }

  lemma SecondBit(c: bv32)
    ensures Odd(Right(c)) <==> At(c, 2)
  {}

  lemma ThirdBit(c: bv32)
    ensures Odd(Right(Right(c))) <==> At(c, 4)
  {}

  lemma FourthBit(c: bv32)
    ensures Odd(Right(Right(Right(c)))) <==> At(c, 8)
  {}

  lemma FourRights(c: bv32)
    ensures Right(Right(Right(Right(c)))) == Right4(c)
  {}

  /** The constant is the generator without x^32. */
  lemma GeneratorBits()
    ensures Poly(WordBits(POLYNOMIAL)) == GENERATOR - {32}
  {
    hide LowBits;
    var r := WordBits(POLYNOMIAL);
    Nibble(0xEDB88320, 32);
    Nibble(0xEDB8832, 28);
    Nibble(0xEDB883, 24);
    Nibble(0xEDB88, 20);
    Nibble(0xEDB8, 16);
    Nibble(0xEDB, 12);
    Nibble(0xED, 8);
    Nibble(0xE, 4);
    forall e: nat ensures e in Poly(r) <==> e in GENERATOR - {32} {
      InPoly(r, e);
    }
  }

  /** Times x, less x^32. */
  lemma RightPoly(c: bv32)
    ensures Moved(Poly(WordBits(c)), 1) == Sum(Poly(WordBits(Right(c))), if Odd(c) then {32} else {})
  {
    hide WordBits, Right, Odd, Poly;
    var s, t := WordBits(c), WordBits(Right(c));
    RightBits(c);
    forall e: nat ensures e in Moved(Poly(s), 1) <==> e in Sum(Poly(t), if Odd(c) then {32} else {}) {
      InMoved(Poly(s), 1, e);
      InPoly(t, e);
      if e > 0 { InPoly(s, e - 1); }
    }
  }

  /** A bit mixed in and shifted out: times x, with the generator taken off if x^32 is there. */
  lemma ShiftPoly(c: bv32, b: bool)
    ensures var t := Odd(Mix(c, Bit(b)));
            Poly(WordBits(Shift(Mix(c, Bit(b))))) ==
            Sum(Sum(Moved(Poly(WordBits(c)), 1), if b then {32} else {}), if t then GENERATOR else {})
  {
    hide LowBits, Right, Odd, Mix, Bit, Poly, Moved, Shift;
    var d := Mix(c, Bit(b));
    MixBits(c, Bit(b), 32);
    BitBits(b);
    PolyOfXor(WordBits(c), WordBits(Bit(b)));
    BitPoly(b);
    MovedSum(Poly(WordBits(c)), Poly(WordBits(Bit(b))), 1);
    RightPoly(d);
    ShiftParts(d);
    MixBits(Right(d), POLYNOMIAL, 32);
    PolyOfXor(WordBits(Right(d)), WordBits(POLYNOMIAL));
    GeneratorBits();
    TakenOff(Poly(WordBits(Right(d))), if Odd(d) then {32} else {}, Odd(d));
  }

  lemma TakenOff(p: set<nat>, top: set<nat>, t: bool)
    requires top == if t then {32} else {}
    ensures (if t then Sum(p, GENERATOR - {32}) else p) == Sum(Sum(p, top), if t then GENERATOR else {})
  {}

  lemma BitPoly(b: bool)
    ensures Moved(Poly(WordBits(Bit(b))), 1) == if b then {32} else {}
  {
    hide WordBits, Bit, Poly;
    var r := WordBits(Bit(b));
    BitBits(b);
    forall e: nat ensures e in Moved(Poly(r), 1) <==> e in (if b then {32} else {}) {
      InMoved(Poly(r), 1, e);
      if e > 0 { InPoly(r, e - 1); }
    }
  }

  // ---- the whole message

  ghost predicate Remainder(bits: seq<bool>, r: seq<bool>) {
    |r| == 32 && exists q: seq<bool> :: Moved(Poly(bits), 32) == Sum(Product(q, GENERATOR), Poly(r))
  }

  lemma {:induction false} BitRegisterDivides(bits: seq<bool>)
    ensures Remainder(bits, WordBits(BitRegister(0, bits)))
    decreases |bits|
  {
    hide WordBits, Shift, Mix, Bit, Odd, Poly, Moved, BitRegister;
    if bits == [] {
      NothingDivides();
    } else {
      var n := |bits| - 1;
      var c, b := BitRegister(0, bits[..n]), bits[n];
      BitRegisterDivides(bits[..n]);
      var q :| Moved(Poly(bits[..n]), 32) == Sum(Product(q, GENERATOR), Poly(WordBits(c)));
      assert bits == bits[..n] + [b];
      BitRegisterJoin(0, bits[..n], [b]);
      OneBit(c, b);
      DivisionGoesOn(bits[..n], b, c, q);
    }
  }

  lemma OneBit(c: bv32, b: bool)
    ensures BitRegister(c, [b]) == Shift(Mix(c, Bit(b)))
  {
    hide Shift, Mix, Bit;
  }

  lemma NothingDivides()
    ensures Remainder([], WordBits(BitRegister(0, [])))
  {
    var r := WordBits(0);
    ZeroBits(32);
    forall e: nat ensures e !in Poly(r) { InPoly(r, e); }
    assert Moved(Poly([]), 32) == {} == Sum(Product([], GENERATOR), Poly(r));
  }

  lemma DivisionGoesOn(bits: seq<bool>, b: bool, c: bv32, q: seq<bool>)
    requires Moved(Poly(bits), 32) == Sum(Product(q, GENERATOR), Poly(WordBits(c)))
    ensures Remainder(bits + [b], WordBits(Shift(Mix(c, Bit(b)))))
  {
    hide WordBits, Shift, Mix, Bit, Odd, Poly, Moved, Product;
    var t := Odd(Mix(c, Bit(b)));
    var m, p, r := Poly(bits), Product(q, GENERATOR), Poly(WordBits(c));
    PolyBehind(bits, [b]);
    LastPoly(b);
    MovedSum(Moved(m, 1), Poly([b]), 32);
    MovedTwice(m, 1, 32);
    MovedSum(p, r, 1);
    ShiftPoly(c, b);
    ProductStep(t, q);
    Rearranged(Moved(p, 1), Moved(r, 1), if b then {32} else {}, if t then GENERATOR else {});
    var quotient := [t] + q;
    assert Moved(Poly(bits + [b]), 32)
        == Sum(Product(quotient, GENERATOR), Poly(WordBits(Shift(Mix(c, Bit(b))))));
  }

  lemma ProductStep(t: bool, q: seq<bool>)
    ensures Product([t] + q, GENERATOR) == Sum(if t then GENERATOR else {}, Moved(Product(q, GENERATOR), 1))
  {
    assert ([t] + q)[1..] == q;
  }

  lemma LastPoly(b: bool)
    ensures Moved(Poly([b]), 32) == if b then {32} else {}
  {
    hide Poly;
    forall e: nat ensures e in Moved(Poly([b]), 32) <==> e in (if b then {32} else {}) {
      InMoved(Poly([b]), 32, e);
      if e >= 32 { InPoly([b], e - 32); }
    }
  }

  lemma Rearranged(p: set<nat>, r: set<nat>, b: set<nat>, g: set<nat>)
    ensures Sum(Sum(p, r), b) == Sum(Sum(g, p), Sum(Sum(r, b), g))
  {}

  /** The register from zero is the remainder of the message times x^32; its lowest bit is the coefficient of x^31. */
  lemma RegisterIsRemainder(message: seq<octet>)
    ensures Remainder(Bits(message), WordBits(Register(0, message)))
  {
    hide Remainder, WordBits, Register, BitRegister, Bits;
    RegisterIsBits(0, message);
    BitRegisterDivides(Bits(message));
  }

  /** A message has one remainder. */
  lemma RemainderUnique(bits: seq<bool>, r: seq<bool>, s: seq<bool>)
    requires Remainder(bits, r) && Remainder(bits, s)
    ensures r == s
  {
    hide Poly, Moved, Product;
    var p :| Moved(Poly(bits), 32) == Sum(Product(p, GENERATOR), Poly(r));
    var q :| Moved(Poly(bits), 32) == Sum(Product(q, GENERATOR), Poly(s));
    ProductOfSum(p, q, GENERATOR);
    var e := MultipleIsHigh(AddCoefficients(p, q), GENERATOR);
    PolyOfXor(r, s);
    InPoly(Xor(r, s), e);
    assert Sum(Product(p, GENERATOR), Product(q, GENERATOR)) == Sum(Poly(r), Poly(s));
    forall i | 0 <= i < 32 ensures r[i] == s[i] {
      InPoly(Xor(r, s), 31 - i);
    }
  }

  // ---- the checksum

  function Inverted(bits: seq<bool>): (r: seq<bool>)
    ensures |r| == |bits|
  {
    seq(|bits|, i requires 0 <= i < |bits| => !bits[i])
  }

  lemma Ones()
    ensures forall i :: 0 <= i < 32 ==> WordBits(0xFFFFFFFF)[i]
  {
    hide LowBits;
    Nibble(0xFFFFFFFF, 32);
    Nibble(0xFFFFFFF, 28);
    Nibble(0xFFFFFF, 24);
    Nibble(0xFFFFF, 20);
    Nibble(0xFFFF, 16);
    Nibble(0xFFF, 12);
    Nibble(0xFF, 8);
    Nibble(0xF, 4);
  }

  /** The checksum of a message is that remainder, every bit inverted. */
  lemma ChecksumIsRemainder(message: seq<octet>)
    ensures Remainder(Bits(message), Inverted(WordBits(Mix(Register(0, message), 0xFFFFFFFF))))
  {
    hide Remainder, LowBits, Register, Bits, Mix;
    var c := Register(0, message);
    RegisterIsRemainder(message);
    MixBits(c, 0xFFFFFFFF, 32);
    Ones();
    var flipped := WordBits(Mix(c, 0xFFFFFFFF));
    var ones := WordBits(0xFFFFFFFF);
    assert flipped == Xor(WordBits(c), ones);
    assert forall i :: 0 <= i < 32 ==> ones[i] && flipped[i] == (WordBits(c)[i] != ones[i]);
    assert Inverted(flipped) == WordBits(c);
  }

  lemma HalvesSame(a: bv32, b: bv32)
    requires Odd(a) == Odd(b) && Right(a) == Right(b)
    ensures a == b
  {}

  lemma {:induction false} LowBitsInjective(a: bv32, b: bv32, n: nat)
    requires Fits(a, n) && Fits(b, n) && LowBits(a, n) == LowBits(b, n)
    ensures a == b
    decreases n
  {
    hide Right, Odd;
    if n > 0 {
      assert LowBits(a, n)[1..] == LowBits(Right(a), n - 1) && LowBits(b, n)[1..] == LowBits(Right(b), n - 1);
      assert LowBits(a, n)[0] == LowBits(b, n)[0];
      LowBitsInjective(Right(a), Right(b), n - 1);
      HalvesSame(a, b);
    }
  }

  /** Times x^32 the polynomial is a multiple of the generator. */
  ghost predicate Divides(p: set<nat>) {
    exists q: seq<bool> :: Moved(p, 32) == Product(q, GENERATOR)
  }

  /** Which changes go unseen: two messages of one length have one checksum exactly if the generator divides their difference. */
  lemma CollideExactly(x: seq<octet>, y: seq<octet>)
    requires |x| == |y|
    ensures Mix(Register(0, x), 0xFFFFFFFF) == Mix(Register(0, y), 0xFFFFFFFF)
            <==> Divides(Sum(Poly(Bits(x)), Poly(Bits(y))))
  {
    hide LowBits, Register, Bits, Mix, Poly, Moved, Product, Sum;
    var c, d, m, n := Register(0, x), Register(0, y), Poly(Bits(x)), Poly(Bits(y));
    RegisterIsRemainder(x);
    RegisterIsRemainder(y);
    MixInjective(0xFFFFFFFF, c, d);
    MovedSum(m, n, 32);
    var p :| Moved(m, 32) == Sum(Product(p, GENERATOR), Poly(WordBits(c)));
    var q :| Moved(n, 32) == Sum(Product(q, GENERATOR), Poly(WordBits(d)));
    if c == d {
      ProductOfSum(p, q, GENERATOR);
      Cancelled(Product(p, GENERATOR), Product(q, GENERATOR), Poly(WordBits(c)));
      assert Moved(Sum(m, n), 32) == Product(AddCoefficients(p, q), GENERATOR);
    }
    if Divides(Sum(m, n)) {
      var z :| Moved(Sum(m, n), 32) == Product(z, GENERATOR);
      ProductOfSum(z, q, GENERATOR);
      Restored(Moved(m, 32), Moved(n, 32), Product(q, GENERATOR), Poly(WordBits(d)));
      assert Moved(m, 32) == Sum(Product(AddCoefficients(z, q), GENERATOR), Poly(WordBits(d)));
      RemainderUnique(Bits(x), WordBits(c), WordBits(d));
      AllFit(c);
      AllFit(d);
      LowBitsInjective(c, d, 32);
    }
  }

  lemma Cancelled(p: set<nat>, q: set<nat>, r: set<nat>)
    ensures Sum(Sum(p, r), Sum(q, r)) == Sum(p, q)
  {}

  lemma Restored(m: set<nat>, n: set<nat>, q: set<nat>, r: set<nat>)
    requires n == Sum(q, r)
    ensures m == Sum(Sum(Sum(m, n), q), r)
  {}
}
