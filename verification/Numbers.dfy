/**
 Numbers. The C library's conversions are a parameter: `strtod` and the
 shortest rendering of a fraction are any functions for which reading undoes
 printing. Only `%d` is spelled out.
 */
module Numbers {
  import opened Bytes

  const INT_MAX: int := 0x7FFF_FFFF
  const INT_MIN: int := -0x8000_0000

  /** What `strtod` reports: the value and how many bytes it used; none used means no number. */
  datatype Scan = Scan(value: real, used: nat)

  datatype NumLib = NumLib(strtod: seq<byte> -> Scan, shortest: real -> CChars)

  function DigitByte(d: nat): byte
    requires d < 10
  {
    48 + d
  }

  /** `%d` of a number that is not negative. */
  function NatText(n: nat): (s: seq<byte>)
    ensures |s| > 0
    ensures forall i :: 0 <= i < |s| ==> 48 <= s[i] <= 57
  {
    if n < 10 then [DigitByte(n)] else NatText(n / 10) + [DigitByte(n % 10)]
  }

  /** `%d`. */
  function IntText(n: int): (s: seq<byte>)
    ensures |s| > 0 && NUL !in s
  {
    if n < 0 then [MINUS] + NatText(-n) else NatText(n)
  }

  predicate IsInt(d: real) {
    d == d.Floor as real && INT_MIN <= d.Floor <= INT_MAX
  }

  /** The `valueint` kept beside a `valuedouble`: saturated, else truncated toward zero. */
  function IntOf(d: real): (n: int)
    ensures INT_MIN <= n <= INT_MAX
    ensures n as real == d <==> IsInt(d)
  {
    if d >= INT_MAX as real then INT_MAX
    else if d <= INT_MIN as real then INT_MIN
    else if d >= 0.0 then d.Floor
    else -((-d).Floor)
  }

  /** What `print_number` renders; more than 25 bytes make it fail. */
  function NumberText(lib: Lib, d: real): (s: seq<byte>)
    ensures NUL !in s
  {
    if d == IntOf(d) as real then IntText(IntOf(d)) else lib.shortest(d)
  }

  const NUMBER_BUFFER: nat := 26

  /** The bytes that `parse_number` hands to `strtod`. */
  predicate NumberByte(b: byte) {
    48 <= b <= 57 || b == PLUS || b == MINUS || b == 101 || b == 69 || b == DOT
  }

  /** `strtod` stays inside its argument and reads `%d` back. */
  ghost predicate Sound(lib: NumLib) {
    && (forall s :: lib.strtod(s).used <= |s|)
    && forall n: int {:trigger IntText(n)} | INT_MIN <= n <= INT_MAX ::
         lib.strtod(IntText(n)) == Scan(n as real, |IntText(n)|)
  }

  /** The number can be printed, and reading the text gives it back. */
  ghost predicate Renders(lib: Lib, d: real) {
    var text := NumberText(lib, d);
    && 0 < |text| < NUMBER_BUFFER
    && (text[0] == MINUS || 48 <= text[0] <= 57)
    && (forall i :: 0 <= i < |text| ==> NumberByte(text[i]))
    && Strtod(lib, text) == Scan(d, |text|)
  }

  lemma {:induction false} NatTextLength(n: nat, digits: nat, bound: nat)
    requires n < bound && 1 <= digits
    requires bound == Pow10(digits)
    ensures |NatText(n)| <= digits
    decreases digits
  {
    if n >= 10 {
      NatTextLength(n / 10, digits - 1, Pow10(digits - 1));
    }
  }

  function Pow10(k: nat): nat {
    if k == 0 then 1 else 10 * Pow10(k - 1)
  }

  /** Every 32-bit integer renders, whatever the library does with fractions. */
  lemma IntsRender(lib: Lib, n: int)
    requires INT_MIN <= n <= INT_MAX
    ensures Renders(lib, n as real)
    ensures NumberText(lib, n as real) == IntText(n)
  {
    assert (n as real).Floor == n;
    assert IsInt(n as real);
    var m := if n < 0 then -n else n;
    assert Pow10(5) == 100000;
    assert Pow10(10) == 10000000000;
    NatTextLength(m, 10, Pow10(10));
  }

  /** The digits at the front of `s`, as the number `n` already read grows by them. */
  function ReadDigits(s: seq<byte>, n: nat): (nat, nat) {
    if s == [] || !(48 <= s[0] <= 57) then (n, 0)
    else var (v, used) := ReadDigits(s[1..], 10 * n + (s[0] - 48)); (v, used + 1)
  }

  lemma {:induction false} ReadDigitsAppend(s: seq<byte>, d: byte, n: nat)
    requires forall i :: 0 <= i < |s| ==> 48 <= s[i] <= 57
    requires 48 <= d <= 57
    ensures ReadDigits(s, n).1 == |s|
    ensures ReadDigits(s + [d], n) == (10 * ReadDigits(s, n).0 + (d - 48), |s| + 1)
  {
    if s == [] {
      assert (s + [d])[1..] == [];
      assert ReadDigits([], 10 * n + (d - 48)) == (10 * n + (d - 48), 0);
    } else {
      assert (s + [d])[1..] == s[1..] + [d];
      ReadDigitsAppend(s[1..], d, 10 * n + (s[0] - 48));
    }
  }

  lemma {:induction false} ReadDigitsNatText(n: nat)
    ensures ReadDigits(NatText(n), 0) == (n, |NatText(n)|)
  {
    if n < 10 {
      assert NatText(n) == [DigitByte(n)];
      ReadDigitsAppend([], DigitByte(n), 0);
      assert [] + [DigitByte(n)] == [DigitByte(n)];
    } else {
      ReadDigitsNatText(n / 10);
      ReadDigitsAppend(NatText(n / 10), DigitByte(n % 10), 0);
    }
  }

  /** An integer-only reader, to show that `Sound` asks nothing impossible. */
  function ReadInt(s: seq<byte>): Scan {
    if s != [] && s[0] == MINUS then
      var (v, used) := ReadDigits(s[1..], 0);
      if used == 0 then Scan(0.0, 0) else Scan(-(v as real), used + 1)
    else
      var (v, used) := ReadDigits(s, 0);
      Scan(v as real, used)
  }

  lemma {:induction false} ReadDigitsUsed(s: seq<byte>, n: nat)
    ensures ReadDigits(s, n).1 <= |s|
  {
    if s != [] && 48 <= s[0] <= 57 {
      ReadDigitsUsed(s[1..], 10 * n + (s[0] - 48));
    }
  }

  /** A library that `Sound` admits, whatever it prints for fractions. */
  function IntOnly(shortest: real -> CChars): (lib: NumLib)
    ensures Sound(lib)
  {
    IntOnlyIsSound(shortest);
    NumLib(ReadInt, shortest)
  }

  lemma IntOnlyIsSound(shortest: real -> CChars)
    ensures Sound(NumLib(ReadInt, shortest))
  {
    forall s: seq<byte> ensures ReadInt(s).used <= |s| {
      ReadDigitsUsed(s, 0);
      if s != [] { ReadDigitsUsed(s[1..], 0); }
    }
    forall n: int ensures ReadInt(IntText(n)) == Scan(n as real, |IntText(n)|) {
      if n < 0 {
        ReadDigitsNatText(-n);
        assert IntText(n)[1..] == NatText(-n);
      } else {
        ReadDigitsNatText(n);
      }
    }
  }

  type Lib = lib: NumLib | Sound(lib) witness IntOnly((d: real) => [])

  function Strtod(lib: Lib, s: seq<byte>): (r: Scan)
    ensures r.used <= |s|
  {
    lib.strtod(s)
  }
}
