/**
 `cJSON_Compare` and the lookup of members: symmetric, and on trees whose keys
 differ the equality of finite maps.
 */
module Comparison {
  import opened Bytes
  import opened Items

  const DBL_EPSILON: real := 1.0 / 4503599627370496.0

  function Abs(x: real): real {
    if x < 0.0 then -x else x
  }

  /** `compare_double`. */
  predicate CompareDouble(a: real, b: real) {
    var maxVal := if Abs(a) > Abs(b) then Abs(a) else Abs(b);
    Abs(a - b) <= maxVal * DBL_EPSILON
  }

  /** `tolower` in the C locale. */
  function ToLower(b: byte): byte {
    if 65 <= b <= 90 then b + 32 else b
  }

  /** What a comparison of keys sees of one. */
  function Folded(x: seq<byte>, caseSensitive: bool): seq<byte> {
    if caseSensitive then x else seq(|x|, i requires 0 <= i < |x| => ToLower(x[i]))
  }

  /** The byte at the front of a C string, its terminator at the end. */
  function Front(x: seq<byte>): int {
    if x == [] then NUL else x[0]
  }

  /** The difference of the first two bytes that differ, the terminator included. */
  function Order(x: seq<byte>, y: seq<byte>): int {
    if x == [] || y == [] || x[0] != y[0] then Front(x) - Front(y) else Order(x[1..], y[1..])
  }

  /** `x` comes first in the order of the dictionary. */
  ghost predicate Precedes(x: seq<byte>, y: seq<byte>) {
    exists n: nat :: n <= |x| && n < |y| && x[..n] == y[..n] && (n == |x| || x[n] < y[n])
  }

  /** Zero for equal strings alone, and the sign tells the order. */
  lemma {:induction false} OrderMeans(x: CChars, y: CChars)
    ensures Order(x, y) == 0 <==> x == y
    ensures Order(x, y) < 0 <==> Precedes(x, y)
    ensures Order(x, y) == -Order(y, x)
    decreases |x|
  {
    if x != [] && y != [] && x[0] == y[0] {
      OrderMeans(x[1..], y[1..]);
      assert x == [x[0]] + x[1..] && y == [y[0]] + y[1..];
      PrecedesBehind(x, y);
    } else {
      if Precedes(x, y) {
        var n: nat :| n <= |x| && n < |y| && x[..n] == y[..n] && (n == |x| || x[n] < y[n]);
        FrontsAgree(x, y, n);
      }
      if Order(x, y) < 0 {
        assert x[..0] == y[..0] && (|x| == 0 || x[0] < y[0]);
      }
    }
  }

  lemma FrontsAgree(x: seq<byte>, y: seq<byte>, n: nat)
    requires n <= |x| && n <= |y| && x[..n] == y[..n]
    ensures n > 0 ==> x[0] == y[0]
  {
    if n > 0 {
      assert x[0] == x[..n][0] && y[0] == y[..n][0];
    }
  }

  lemma PrecedesBehind(x: seq<byte>, y: seq<byte>)
    requires x != [] && y != [] && x[0] == y[0]
    ensures Precedes(x, y) <==> Precedes(x[1..], y[1..])
  {
    var v, w := x[1..], y[1..];
    if Precedes(x, y) {
      var n: nat :| n <= |x| && n < |y| && x[..n] == y[..n] && (n == |x| || x[n] < y[n]);
      assert v[..n - 1] == x[..n][1..] && w[..n - 1] == y[..n][1..];
    }
    if Precedes(v, w) {
      var n: nat :| n <= |v| && n < |w| && v[..n] == w[..n] && (n == |v| || v[n] < w[n]);
      assert x[..n + 1] == [x[0]] + v[..n] && y[..n + 1] == [y[0]] + w[..n];
    }
  }

  /** The byte at a position of a C string. */
  function Byte(x: CChars, i: nat): byte
    requires i <= |x|
  {
    if i < |x| then x[i] else NUL
  }

  /** `case_insensitive_strcmp`. */
  method CaseInsensitiveStrcmp(string1: CString, string2: CString) returns (r: int)
    ensures string1 == NoString || string2 == NoString ==> r == 1
    ensures string1.Chars? && string2.Chars? ==> r == Order(Folded(string1.chars, false), Folded(string2.chars, false))
    ensures string1.Chars? && string2.Chars? ==> (r == 0 <==> SameText(string1.chars, string2.chars, false))
  {
    if string1 == NoString || string2 == NoString {
      return 1;
    }
    var x, y := string1.chars, string2.chars;
    ghost var fx, fy := Folded(x, false), Folded(y, false);
    FoldedZero(x, y);
    var i: nat := 0;
    assert fx[0..] == fx && fy[0..] == fy;
    while ToLower(Byte(x, i)) == ToLower(Byte(y, i))
      invariant i <= |x| && i <= |y| && Order(fx, fy) == Order(fx[i..], fy[i..])
      decreases |x| - i
    {
      assert i < |x| ==> x[i] in x;
      assert i < |y| ==> y[i] in y;
      if Byte(x, i) == NUL {
        return 0;
      }
      assert fx[i..][1..] == fx[i + 1..] && fy[i..][1..] == fy[i + 1..];
      i := i + 1;
    }
    r := ToLower(Byte(x, i)) - ToLower(Byte(y, i));
  }

  lemma FoldedChars(x: CChars, caseSensitive: bool)
    ensures NUL !in Folded(x, caseSensitive)
  {
    forall i | 0 <= i < |x| ensures ToLower(x[i]) != NUL {
      assert x[i] in x;
    }
  }

  // ---- which keys are the same

  /** The same byte, or one letter in its two cases (`A` is 65 and `Z` is 90, `a` is 97 and `z` is 122). */
  predicate SameLetter(a: byte, b: byte) {
    || a == b
    || (65 <= a <= 90 && b - a == 32)
    || (97 <= a <= 122 && a - b == 32)
  }

  predicate SameText(x: seq<byte>, y: seq<byte>, caseSensitive: bool) {
    if caseSensitive then x == y else |x| == |y| && forall i :: 0 <= i < |x| ==> SameLetter(x[i], y[i])
  }

  lemma FoldedSame(x: seq<byte>, y: seq<byte>, caseSensitive: bool)
    ensures Folded(x, caseSensitive) == Folded(y, caseSensitive) <==> SameText(x, y, caseSensitive)
  {
    if !caseSensitive && Folded(x, false) == Folded(y, false) {
      forall i | 0 <= i < |x| ensures SameLetter(x[i], y[i]) {
        assert Folded(x, false)[i] == Folded(y, false)[i];
      }
    }
    if !caseSensitive && SameText(x, y, false) {
      assert forall i :: 0 <= i < |x| ==> ToLower(x[i]) == ToLower(y[i]);
    }
  }

  lemma FoldedZero(x: CChars, y: CChars)
    ensures Order(Folded(x, false), Folded(y, false)) == 0 <==> SameText(x, y, false)
  {
    hide Folded, Order, SameText;
    FoldedChars(x, false);
    FoldedChars(y, false);
    OrderMeans(Folded(x, false), Folded(y, false));
    FoldedSame(x, y, false);
  }

  /** Letters of either case come behind the six bytes between `Z` and `a`. */
  lemma LettersBehind(x: CChars, y: CChars)
    requires x != [] && y != [] && 91 <= y[0] <= 96
    requires 65 <= x[0] <= 90 || 97 <= x[0] <= 122
    ensures Order(Folded(x, false), Folded(y, false)) > 0 > Order(Folded(y, false), Folded(x, false))
  {}

  /** The two differ by no more than the `1 / 2^52`th of one of them, whatever its sign. */
  predicate Near(a: real, b: real, of: real) {
    -of <= (a - b) * 4503599627370496.0 <= of
  }

  lemma CompareDoubleMeans(a: real, b: real)
    ensures CompareDouble(a, b) <==> Near(a, b, a) || Near(a, b, -a) || Near(a, b, b) || Near(a, b, -b)
  {
    var m := if Abs(a) > Abs(b) then Abs(a) else Abs(b);
    assert Abs(a - b) <= m * DBL_EPSILON <==> Abs(a - b) * 4503599627370496.0 <= m;
  }

  /** Whether the lookup stops at this element, looking for `name`. */
  predicate Matches(name: CString, key: CString, caseSensitive: bool) {
    name.Chars? && key.Chars? && Folded(name.chars, caseSensitive) == Folded(key.chars, caseSensitive)
  }

  /** `get_object_item`: the position of the first match, or the length. Looking with case, a member without a key ends the search. */
  function GetObjectItem(kids: seq<Item>, name: CString, caseSensitive: bool): (i: nat)
    ensures i <= |kids|
    ensures i < |kids| ==> Matches(name, kids[i].name, caseSensitive)
  {
    if kids == [] || name.NoString? then |kids|
    else if Matches(name, kids[0].name, caseSensitive) then 0
    else if caseSensitive && kids[0].name.NoString? then |kids|
    else 1 + GetObjectItem(kids[1..], name, caseSensitive)
  }

  /** The member at `i` has the key, and none before it. */
  predicate Finds(kids: seq<Item>, name: CString, caseSensitive: bool, i: nat) {
    && (i < |kids| ==> HasKey(kids[i], name, caseSensitive))
    && forall j :: 0 <= j < i && j < |kids| && HasKey(kids[j], name, caseSensitive) ==>
         caseSensitive && exists h :: 0 <= h < j && kids[h].name == NoString
  }

  predicate HasKey(it: Item, name: CString, caseSensitive: bool) {
    name.Chars? && it.name.Chars? && SameText(name.chars, it.name.chars, caseSensitive)
  }

  /** The first member with the key is found, unless, looking with case, a member without a key is in front of it. */
  lemma {:induction false} LookupFinds(kids: seq<Item>, name: CString, caseSensitive: bool)
    ensures Finds(kids, name, caseSensitive, GetObjectItem(kids, name, caseSensitive))
    ensures caseSensitive && GetObjectItem(kids, name, true) < |kids| ==>
              forall h :: 0 <= h < GetObjectItem(kids, name, true) ==> kids[h].name.Chars?
  {
    hide SameText, Folded;
    if kids != [] && name.Chars? {
      var i := GetObjectItem(kids, name, caseSensitive);
      if kids[0].name.Chars? { FoldedSame(name.chars, kids[0].name.chars, caseSensitive); }
      if i < |kids| { FoldedSame(name.chars, kids[i].name.chars, caseSensitive); }
      if !Matches(name, kids[0].name, caseSensitive) && !(caseSensitive && kids[0].name.NoString?) {
        LookupFinds(kids[1..], name, caseSensitive);
        forall j | 0 <= j < i && j < |kids| && HasKey(kids[j], name, caseSensitive)
          ensures caseSensitive && exists h :: 0 <= h < j && kids[h].name == NoString
        {
          assert kids[j] == kids[1..][j - 1];
          var h :| 0 <= h < j - 1 && kids[1..][h].name == NoString;
          assert kids[h + 1].name == NoString;
        }
      }
    }
  }

  // ---- cJSON_Compare

  function Size(it: Item): nat {
    1 + SizeAll(it.kids)
  }

  function SizeAll(kids: seq<Item>): nat {
    if kids == [] then 0 else Size(kids[0]) + SizeAll(kids[1..])
  }

  lemma {:induction false} KidSmaller(kids: seq<Item>, i: nat)
    requires i < |kids|
    ensures Size(kids[i]) <= SizeAll(kids)
  {
    if i > 0 { KidSmaller(kids[1..], i - 1); }
  }

  /** `cJSON_Compare` of two items that are not the same node. */
  predicate Compare(a: Item, b: Item, caseSensitive: bool)
    decreases Size(a) + Size(b), 0, 0
  {
    && a.kind == b.kind
    && match a.kind
       case Invalid => false
       case False | True | Null => true
       case Number => CompareDouble(a.num, b.num)
       case String | Raw => a.text.Chars? && a.text == b.text
       case Array => CompareElements(a.kids, b.kids, caseSensitive)
       case Object => Includes(a.kids, b.kids, 0, caseSensitive) && Includes(b.kids, a.kids, 0, caseSensitive)
  }

  /** The two lists side by side. */
  predicate CompareElements(xs: seq<Item>, ys: seq<Item>, caseSensitive: bool)
    decreases SizeAll(xs) + SizeAll(ys), 1, 0
  {
    if xs == [] || ys == [] then xs == ys
    else Compare(xs[0], ys[0], caseSensitive) && CompareElements(xs[1..], ys[1..], caseSensitive)
  }

  /** From position `i` on, each member of the first list has an equal one in the second. */
  predicate Includes(xs: seq<Item>, ys: seq<Item>, i: nat, caseSensitive: bool)
    requires i <= |xs|
    decreases SizeAll(xs) + SizeAll(ys), 1, |xs| - i
  {
    if i == |xs| then true
    else
      var j := GetObjectItem(ys, xs[i].name, caseSensitive);
      && j < |ys|
      && (KidSmaller(xs, i); KidSmaller(ys, j); Compare(xs[i], ys[j], caseSensitive))
      && Includes(xs, ys, i + 1, caseSensitive)
  }
}
