/**
 The bitwise CRC: what the loops compute, that it is linear, and that it tells
 apart any two messages of one length that differ only within 32 consecutive
 bits.
 */
module Crc {
  const POLYNOMIAL: bv32 := 0xEDB88320

  /** A byte, as it is widened to be mixed in. */
  type octet = b: bv32 | b < 0x100

  function Mix(a: bv32, b: bv32): bv32 {
    a ^ b
  }

  /** One turn of the inner loop. */
  function Shift(c: bv32): bv32 {
    if c & 1 == 1 then (c >> 1) ^ POLYNOMIAL else c >> 1
  }

  function Unshift(d: bv32): bv32 {
    if d & 0x80000000 != 0 then ((d ^ POLYNOMIAL) << 1) | 1 else d << 1
  }

  /** The top bit of the polynomial keeps the bit that is shifted out. */
  lemma ShiftInverts(c: bv32)
    ensures Unshift(Shift(c)) == c
  {}

  lemma ShiftLinear(a: bv32, b: bv32)
    ensures Shift(Mix(a, b)) == Mix(Shift(a), Shift(b))
  {
    ShiftParts(a);
    ShiftParts(b);
    ShiftParts(Mix(a, b));
    RightLinear(a, b);
    OddLinear(a, b);
    MixMoves(Right(a), Right(b), POLYNOMIAL);
    hide Shift, Mix, Right, Odd;
  }

  function Right(c: bv32): bv32 {
    c >> 1
  }

  predicate Odd(c: bv32) {
    c & 1 == 1
  }

  lemma ShiftParts(c: bv32)
    ensures Shift(c) == if Odd(c) then Mix(Right(c), POLYNOMIAL) else Right(c)
  {}

  lemma RightLinear(a: bv32, b: bv32)
    ensures Right(Mix(a, b)) == Mix(Right(a), Right(b))
  {}

  lemma OddLinear(a: bv32, b: bv32)
    ensures Odd(Mix(a, b)) <==> Odd(a) != Odd(b)
  {}

  lemma MixMoves(x: bv32, y: bv32, p: bv32)
    ensures Mix(Mix(x, p), Mix(y, p)) == Mix(x, y)
    ensures Mix(Mix(x, y), p) == Mix(Mix(x, p), y)
    ensures Mix(Mix(x, y), p) == Mix(x, Mix(y, p))
  {
    MixAssociates(x, y, p);
    MixAssociates(x, p, y);
    MixAssociates(x, p, Mix(y, p));
    MixAssociates(p, y, p);
    MixAssociates(y, p, p);
    MixCommutes(y, p);
    MixZero(p);
    MixZero(y);
    hide Mix;
  }

  lemma MixAssociates(x: bv32, y: bv32, z: bv32)
    ensures Mix(Mix(x, y), z) == Mix(x, Mix(y, z))
  {}

  lemma MixCommutes(x: bv32, y: bv32)
    ensures Mix(x, y) == Mix(y, x)
  {}

  lemma MixZero(c: bv32)
    ensures Mix(c, 0) == c && Mix(c, c) == 0
  {}

  function Shifts(c: bv32, n: nat): bv32
    decreases n
  {
    if n == 0 then c else Shifts(Shift(c), n - 1)
  }

  lemma {:induction false} ShiftsInjective(a: bv32, b: bv32, n: nat)
    ensures Shifts(a, n) == Shifts(b, n) ==> a == b
    decreases n
  {
    hide Shift, Unshift;
    if n > 0 {
      ShiftsInjective(Shift(a), Shift(b), n - 1);
      ShiftInverts(a);
      ShiftInverts(b);
    }
  }

  lemma {:induction false} ShiftsZero(n: nat)
    ensures Shifts(0, n) == 0
  {
    if n > 0 {
      assert Shift(0) == 0;
      ShiftsZero(n - 1);
    }
  }

  // ---- the register after a message


  /** One turn of the outer loop. */
  function Absorb(c: bv32, b: octet): bv32 {
    Shifts(Mix(c, b), 8)
  }

  /** The register after the message, from `c`, before the final inversion. */
  function Register(c: bv32, message: seq<octet>): bv32
    decreases |message|
  {
    if message == [] then c
    else Absorb(Register(c, message[..|message| - 1]), message[|message| - 1])
  }

  /** `compute_crc32`. */
  method ComputeCrc32(buf: array<octet>, size: nat) returns (crc: bv32)
    requires size <= buf.Length
    ensures crc == Mix(Register(0, buf[..size]), 0xFFFFFFFF)
  {
    hide Shifts, Mix;
    var p, left := 0, size;
    crc := 0;
    while left > 0
      invariant p + left == size
      invariant crc == Register(0, buf[..p])
      decreases left
    {
      left := left - 1;
      crc := MixIn(crc, buf[p]);
      crc := ShiftByte(crc);
      assert buf[..p + 1][..p] == buf[..p];
      p := p + 1;
    }
    crc := MixIn(crc, 0xFFFFFFFF);
  }

  method MixIn(c: bv32, b: bv32) returns (crc: bv32)
    ensures crc == Mix(c, b)
  {
    crc := c ^ b;
  }

  /** The inner loop. */
  method ShiftByte(c: bv32) returns (crc: bv32)
    ensures crc == Shifts(c, 8)
  {
    crc := c;
    for i := 0 to 8
      invariant Shifts(crc, 8 - i) == Shifts(c, 8)
    {
      if crc & 1 == 1 {
        crc := (crc >> 1) ^ POLYNOMIAL;
      } else {
        crc := crc >> 1;
      }
    }
  }

  // ---- bit by bit

  function Bit(b: bool): bv32 {
    if b then 1 else 0
  }

  /** The register after bits, each mixed in at the low end. */
  function BitRegister(c: bv32, bits: seq<bool>): bv32
    decreases |bits|
  {
    if bits == [] then c else BitRegister(Shift(Mix(c, Bit(bits[0]))), bits[1..])
  }

  function Double(w: bv32, b: bv32): bv32 {
    (w << 1) | b
  }

  /** Up to 32 bits as a word, the first one lowest. */
  function Word(bits: seq<bool>): bv32 {
    if bits == [] then 0 else Double(Word(bits[1..]), Bit(bits[0]))
  }

  /** The bits of a byte in the order in which they are shifted out. */
  function ByteBits(b: octet): (r: seq<bool>)
    ensures |r| == 8
  {
    [b & 1 != 0, b & 2 != 0, b & 4 != 0, b & 8 != 0, b & 16 != 0, b & 32 != 0, b & 64 != 0, b & 128 != 0]
  }

  function Bits(message: seq<octet>): (r: seq<bool>)
    ensures |r| == 8 * |message|
  {
    if message == [] then [] else Bits(message[..|message| - 1]) + ByteBits(message[|message| - 1])
  }

  // ---- a byte at a time is eight bits at a time

  lemma ShiftOfDouble(w: bv32)
    requires w < 0x80000000
    ensures Shift(Double(w, 0)) == w
  {}

  lemma {:induction false} WordBound(bits: seq<bool>)
    requires |bits| <= 31
    ensures Word(bits) < (1 << |bits|)
  {
    if bits != [] {
      WordBound(bits[1..]);
      DoubleBound(Word(bits[1..]), |bits| - 1, Bit(bits[0]));
    }
  }

  lemma DoubleBound(w: bv32, n: nat, b: bv32)
    requires n < 31 && w < (1 << n) && b <= 1
    ensures Double(w, b) < (1 << (n + 1))
  {}

  lemma WordSmall(bits: seq<bool>)
    requires |bits| <= 31
    ensures Word(bits) < 0x80000000
  {
    WordBound(bits);
    PowerBound(|bits|);
  }

  lemma PowerBound(n: nat)
    requires n <= 31
    ensures (1 as bv32) << n <= 0x80000000
  {}

  /** Bits mixed in one after the other do what they do mixed in together in front of all the shifts. */
  lemma {:induction false} BitsAreWord(c: bv32, bits: seq<bool>)
    requires |bits| <= 32
    ensures BitRegister(c, bits) == Shifts(Mix(c, Word(bits)), |bits|)
    decreases |bits|
  {
    hide Shift, Bit, Mix, Double;
    if bits != [] {
      var w, b := Word(bits[1..]), Bit(bits[0]);
      WordSmall(bits[1..]);
      BitSmall(bits[0]);
      ShiftMixed(c, w, b);
      BitsAreWord(Shift(Mix(c, b)), bits[1..]);
    } else {
      MixZero(c);
    }
  }

  lemma BitSmall(b: bool)
    ensures Bit(b) <= 1
  {}

  lemma ShiftMixed(c: bv32, w: bv32, b: bv32)
    requires w < 0x80000000 && b <= 1
    ensures Shift(Mix(c, Double(w, b))) == Mix(Shift(Mix(c, b)), w)
  {
    hide Shift, Mix, Double;
    ShiftOfDouble(w);
    MixDouble(c, w, b);
    ShiftLinear(Mix(c, b), Double(w, 0));
  }

  lemma MixDouble(c: bv32, w: bv32, b: bv32)
    requires b <= 1
    ensures Mix(c, Double(w, b)) == Mix(Mix(c, b), Double(w, 0))
  {
    assert (w << 1) | b == (w << 1) ^ b;
    assert (w << 1) | 0 == w << 1;
  }

  lemma ByteWord(b: octet)
    ensures Word(ByteBits(b)) == b
  {
    hide Double, Bit, Word, ByteBits;
    var r := ByteBits(b);
    WordAt(r, 0);
    WordAt(r, 1);
    WordAt(r, 2);
    WordAt(r, 3);
    WordAt(r, 4);
    WordAt(r, 5);
    WordAt(r, 6);
    WordAt(r, 7);
    NoWord(r);
    PiecesOf(b);
  }

  lemma PiecesOf(b: octet)
    ensures var r := ByteBits(b);
            Double(Double(Double(Double(Double(Double(Double(Double(0,
              Bit(r[7])), Bit(r[6])), Bit(r[5])), Bit(r[4])), Bit(r[3])), Bit(r[2])), Bit(r[1])), Bit(r[0])) == b
  {
    hide Double, Bit;
    BytePieces(b);
  }

  lemma WordAt(r: seq<bool>, i: nat)
    requires i < |r|
    ensures Word(r[i..]) == Double(Word(r[i + 1..]), Bit(r[i]))
  {
    hide Double, Bit;
    assert r[i..][1..] == r[i + 1..];
  }

  lemma NoWord(r: seq<bool>)
    ensures Word(r[|r|..]) == 0 && r[0..] == r
  {}

  lemma BytePieces(b: octet)
    ensures
      Double(Double(Double(Double(Double(Double(Double(Double(0,
        Bit(b & 128 != 0)), Bit(b & 64 != 0)), Bit(b & 32 != 0)), Bit(b & 16 != 0)),
        Bit(b & 8 != 0)), Bit(b & 4 != 0)), Bit(b & 2 != 0)), Bit(b & 1 != 0)) == b
  {}

  lemma AbsorbIsBits(c: bv32, b: octet)
    ensures Absorb(c, b) == BitRegister(c, ByteBits(b))
  {
    hide Mix, Word, BitRegister, Shifts;
    BitsAreWord(c, ByteBits(b));
    ByteWord(b);
  }

  lemma {:induction false} BitRegisterJoin(c: bv32, x: seq<bool>, y: seq<bool>)
    ensures BitRegister(c, x + y) == BitRegister(BitRegister(c, x), y)
    decreases |x|
  {
    hide Shift, Mix, Bit;
    if x == [] {
      assert x + y == y;
    } else {
      assert (x + y)[1..] == x[1..] + y;
      BitRegisterJoin(Shift(Mix(c, Bit(x[0]))), x[1..], y);
    }
  }

  /** The register after a message, byte by byte or bit by bit. */
  lemma {:induction false} RegisterIsBits(c: bv32, message: seq<octet>)
    ensures Register(c, message) == BitRegister(c, Bits(message))
    decreases |message|
  {
    hide Absorb;
    if message != [] {
      var n := |message| - 1;
      RegisterIsBits(c, message[..n]);
      AbsorbIsBits(Register(c, message[..n]), message[n]);
      BitRegisterJoin(c, Bits(message[..n]), ByteBits(message[n]));
    }
  }

  // ---- linearity

  function MixAll(x: seq<octet>, y: seq<octet>): (r: seq<octet>)
    requires |x| == |y|
    ensures |r| == |x|
  {
    seq(|x|, i requires 0 <= i < |x| => MixByte(x[i], y[i]))
  }

  function MixByte(a: octet, b: octet): octet {
    a ^ b
  }

  lemma {:induction false} ShiftsLinear(a: bv32, b: bv32, n: nat)
    ensures Shifts(Mix(a, b), n) == Mix(Shifts(a, n), Shifts(b, n))
    decreases n
  {
    hide Shift, Mix;
    if n > 0 {
      ShiftLinear(a, b);
      ShiftsLinear(Shift(a), Shift(b), n - 1);
    }
  }

  lemma MixMixes(c: bv32, d: bv32, a: octet, b: octet)
    ensures Mix(Mix(c, d), MixByte(a, b)) == Mix(Mix(c, a), Mix(d, b))
  {}

  /** Over messages of one length the register is linear, with exclusive or for the sum. */
  lemma {:induction false} RegisterLinear(c: bv32, d: bv32, x: seq<octet>, y: seq<octet>)
    requires |x| == |y|
    ensures Register(Mix(c, d), MixAll(x, y)) == Mix(Register(c, x), Register(d, y))
    decreases |x|
  {
    hide Shifts, Mix, MixByte;
    if x != [] {
      var n := |x| - 1;
      assert MixAll(x, y)[..n] == MixAll(x[..n], y[..n]);
      RegisterLinear(c, d, x[..n], y[..n]);
      var r, s := Register(c, x[..n]), Register(d, y[..n]);
      MixMixes(r, s, x[n], y[n]);
      ShiftsLinear(Mix(r, x[n]), Mix(s, y[n]), 8);
    }
  }

  // ---- detection

  lemma DoubleInjective(w: bv32, b: bool, v: bv32, d: bool)
    requires w < 0x80000000 && v < 0x80000000 && Double(w, Bit(b)) == Double(v, Bit(d))
    ensures w == v && b == d
  {
    hide Double;
    BitSmall(b);
    BitSmall(d);
    Parts(w, Bit(b));
    Parts(v, Bit(d));
  }

  lemma Parts(w: bv32, b: bv32)
    requires w < 0x80000000 && b <= 1
    ensures Double(w, b) & 1 == b && Double(w, b) >> 1 == w
  {}

  lemma {:induction false} WordInjective(x: seq<bool>, y: seq<bool>)
    requires |x| == |y| <= 32 && Word(x) == Word(y)
    ensures x == y
    decreases |x|
  {
    hide Double, Bit;
    if x != [] {
      WordSmall(x[1..]);
      WordSmall(y[1..]);
      DoubleInjective(Word(x[1..]), x[0], Word(y[1..]), y[0]);
      WordInjective(x[1..], y[1..]);
      assert x == [x[0]] + x[1..] && y == [y[0]] + y[1..];
    }
  }

  lemma MixInjective(c: bv32, a: bv32, b: bv32)
    ensures Mix(c, a) == Mix(c, b) ==> a == b
    ensures Mix(a, c) == Mix(b, c) ==> a == b
  {
    assert c ^ (c ^ a) == a && c ^ (c ^ b) == b;
    assert (a ^ c) ^ c == a && (b ^ c) ^ c == b;
  }

  /** Bits mixed in after a difference do not undo it. */
  lemma {:induction false} DifferenceStays(c: bv32, d: bv32, bits: seq<bool>)
    requires c != d
    ensures BitRegister(c, bits) != BitRegister(d, bits)
    decreases |bits|
  {
    hide Shift, Unshift, Mix, Bit;
    if bits != [] {
      var b := Bit(bits[0]);
      MixInjective(b, c, d);
      ShiftInverts(Mix(c, b));
      ShiftInverts(Mix(d, b));
      DifferenceStays(Shift(Mix(c, b)), Shift(Mix(d, b)), bits[1..]);
    }
  }

  /** Two different windows of up to 32 bits leave different registers. */
  lemma WindowDiffers(c: bv32, x: seq<bool>, y: seq<bool>)
    requires |x| == |y| <= 32 && x != y
    ensures BitRegister(c, x) != BitRegister(c, y)
  {
    hide Shifts, Mix, Word, BitRegister;
    BitsAreWord(c, x);
    BitsAreWord(c, y);
    if BitRegister(c, x) == BitRegister(c, y) {
      ShiftsInjective(Mix(c, Word(x)), Mix(c, Word(y)), |x|);
      MixInjective(c, Word(x), Word(y));
      WordInjective(x, y);
    }
  }

  lemma {:induction false} BitsInjective(x: seq<octet>, y: seq<octet>)
    requires |x| == |y| && Bits(x) == Bits(y)
    ensures x == y
    decreases |x|
  {
    hide Bits, ByteBits;
    if x != [] {
      var n := |x| - 1;
      LastByte(x);
      LastByte(y);
      BitsInjective(x[..n], y[..n]);
      ByteInjective(x[n], y[n]);
      assert x == x[..n] + [x[n]] && y == y[..n] + [y[n]];
    }
  }

  lemma LastByte(x: seq<octet>)
    requires x != []
    ensures var n := |x| - 1;
            Bits(x)[..8 * n] == Bits(x[..n]) && Bits(x)[8 * n..] == ByteBits(x[n])
  {
    hide ByteBits;
  }

  lemma ByteInjective(a: octet, b: octet)
    requires ByteBits(a) == ByteBits(b)
    ensures a == b
  {
    ByteWord(a);
    ByteWord(b);
    hide ByteBits, Word;
  }

  /**
   The guarantee: two messages of one length whose bits differ only inside a
   window of 32 consecutive bits, wherever it lies, have different checksums.
   */
  lemma BurstsAreDetected(x: seq<octet>, y: seq<octet>, at: nat, width: nat)
    requires |x| == |y| && x != y
    requires width <= 32 && at + width <= 8 * |x|
    requires Bits(x)[..at] == Bits(y)[..at] && Bits(x)[at + width..] == Bits(y)[at + width..]
    ensures Mix(Register(0, x), 0xFFFFFFFF) != Mix(Register(0, y), 0xFFFFFFFF)
  {
    hide Register, BitRegister, Mix, Bits;
    var xBits, yBits := Bits(x), Bits(y);
    var p, w, v, s := xBits[..at], xBits[at..at + width], yBits[at..at + width], xBits[at + width..];
    assert xBits == p + w + s && yBits == p + v + s;
    if w == v {
      BitsInjective(x, y);
    }
    RegisterIsBits(0, x);
    RegisterIsBits(0, y);
    BitRegisterJoin(0, p + w, s);
    BitRegisterJoin(0, p + v, s);
    BitRegisterJoin(0, p, w);
    BitRegisterJoin(0, p, v);
    WindowDiffers(BitRegister(0, p), w, v);
    DifferenceStays(BitRegister(BitRegister(0, p), w), BitRegister(BitRegister(0, p), v), s);
    MixInjective(0xFFFFFFFF, Register(0, x), Register(0, y));
  }

  lemma {:induction false} BitsJoin(x: seq<octet>, y: seq<octet>)
    ensures Bits(x + y) == Bits(x) + Bits(y)
    decreases |y|
  {
    hide ByteBits;
    if y == [] {
      assert x + y == x && Bits(x) + [] == Bits(x);
    } else {
      var n := |y| - 1;
      assert (x + y)[..|x + y| - 1] == x + y[..n];
      BitsJoin(x, y[..n]);
      assert Bits(x) + Bits(y[..n]) + ByteBits(y[n]) == Bits(x) + (Bits(y[..n]) + ByteBits(y[n]));
    }
  }

  /** In bytes: four that differ, between any two that are the same. */
  lemma FourBytesAreDetected(prefix: seq<octet>, u: seq<octet>, v: seq<octet>, suffix: seq<octet>)
    requires |u| == |v| <= 4 && u != v
    ensures Mix(Register(0, prefix + u + suffix), 0xFFFFFFFF) != Mix(Register(0, prefix + v + suffix), 0xFFFFFFFF)
  {
    hide Register, Mix, Bits;
    var x, y := prefix + u + suffix, prefix + v + suffix;
    var n := |prefix|;
    assert x[n..n + |u|] == u && y[n..n + |u|] == v;
    AroundWindow(prefix, u, suffix);
    AroundWindow(prefix, v, suffix);
    BurstsAreDetected(x, y, 8 * n, 8 * |u|);
  }

  lemma AroundWindow(prefix: seq<octet>, u: seq<octet>, suffix: seq<octet>)
    ensures var bits, n := Bits(prefix + u + suffix), 8 * |prefix|;
            bits[..n] == Bits(prefix) && bits[n + 8 * |u|..] == Bits(suffix)
  {
    hide Bits;
    BitsJoin(prefix + u, suffix);
    BitsJoin(prefix, u);
  }

  // ---- what the register starts from

  lemma {:induction false} RegisterJoin(c: bv32, x: seq<octet>, y: seq<octet>)
    ensures Register(c, x + y) == Register(Register(c, x), y)
    decreases |y|
  {
    hide Absorb;
    if y == [] {
      assert x + y == x;
    } else {
      var n := |y| - 1;
      assert (x + y)[..|x + y| - 1] == x + y[..n];
      RegisterJoin(c, x, y[..n]);
    }
  }

  lemma {:induction false} ZeroRegister(n: nat)
    ensures Register(0, seq(n, i => 0)) == 0
    decreases n
  {
    if n > 0 {
      var zeros: seq<octet> := seq(n, i => 0);
      assert zeros[..n - 1] == seq(n - 1, i => 0);
      ZeroRegister(n - 1);
      ShiftsZero(8);
      MixZero(0);
    }
  }

  /** Starting from zero, the check does not see zero bytes in front of a message, nor how many there are. */
  lemma LeadingZerosUnseen(n: nat, message: seq<octet>)
    ensures Register(0, seq(n, i => 0) + message) == Register(0, message)
  {
    RegisterJoin(0, seq(n, i => 0), message);
    ZeroRegister(n);
  }
}
