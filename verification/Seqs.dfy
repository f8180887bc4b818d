/** A few facts about sequences, by name. */
module Seqs {
  lemma Assoc<T>(a: seq<T>, b: seq<T>, c: seq<T>)
    ensures a + b + c == a + (b + c)
  {}

  lemma Assoc4<T>(a: seq<T>, b: seq<T>, c: seq<T>, d: seq<T>)
    ensures a + b + c + d == a + (b + (c + d))
  {}

  lemma Cons<T>(x: T, s: seq<T>)
    ensures [x] + s != [] && ([x] + s)[0] == x && ([x] + s)[1..] == s
  {}

  lemma Pair<T>(x: T, y: T, s: seq<T>)
    ensures [x, y] + s == [x] + ([y] + s)
    ensures ([x, y] + s)[2..] == s
  {}

  lemma DropPrefix<T>(a: seq<T>, b: seq<T>)
    ensures (a + b)[|a|..] == b && (a + b)[..|a|] == a
  {}

  lemma Empty<T>(s: seq<T>)
    ensures [] + s == s && s + [] == s
  {}

  lemma DropDrop<T>(s: seq<T>, k: nat, n: nat)
    requires k + n <= |s|
    ensures s[k..][n..] == s[k + n..]
    ensures s[k..][..n] == s[k..k + n]
  {}

  lemma NotPrefix<T>(t: seq<T>, s: seq<T>)
    requires t != [] && (s == [] || t[0] != s[0])
    ensures !(t <= s)
  {}
}
