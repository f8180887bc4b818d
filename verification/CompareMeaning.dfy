/**
 What `cJSON_Compare` means: symmetric on all items, and, on trees whose keys
 and strings are there, whose keys differ and whose numbers are 32-bit
 integers, the equality of values in which objects are finite maps.
 */
module CompareMeaning {
  import opened Bytes
  import opened Seqs
  import opened Items
  import opened Numbers
  import opened Heap
  import opened Trees
  import opened Reading
  import opened Duplication
  import opened Comparison
  import opened NodeComparison

  // ---- symmetry

  lemma {:induction false} Symmetric(a: Item, b: Item, caseSensitive: bool)
    ensures Compare(a, b, caseSensitive) == Compare(b, a, caseSensitive)
    decreases a, 1
  {
    hide Includes;
    if a.kind == b.kind == Array {
      ElementsSymmetric(a.kids, b.kids, caseSensitive);
    }
  }

  lemma {:induction false} ElementsSymmetric(xs: seq<Item>, ys: seq<Item>, caseSensitive: bool)
    ensures CompareElements(xs, ys, caseSensitive) == CompareElements(ys, xs, caseSensitive)
    decreases xs, 0
  {
    if xs != [] && ys != [] {
      Symmetric(xs[0], ys[0], caseSensitive);
      ElementsSymmetric(xs[1..], ys[1..], caseSensitive);
    }
  }

  // ---- values

  datatype Value =
    | Constant(kind: Kind)
    | Num(value: real)
    | Text(raw: bool, chars: CChars)
    | List(values: seq<Value>)
    | Table(members: map<seq<byte>, Value>)

  function Key(it: Item, caseSensitive: bool): seq<byte> {
    if it.name.Chars? then Folded(it.name.chars, caseSensitive) else []
  }

  /** The value that an item stands for: an object is the map from its keys. */
  function Denote(it: Item, caseSensitive: bool): Value {
    match it.kind
    case Number => Num(it.num)
    case String | Raw => Text(it.kind == Raw, if it.text.Chars? then it.text.chars else [])
    case Array => List(DenoteAll(it.kids, caseSensitive))
    case Object => Table(DenoteMembers(it.kids, caseSensitive))
    case _ => Constant(it.kind)
  }

  function DenoteAll(kids: seq<Item>, caseSensitive: bool): (r: seq<Value>)
    ensures |r| == |kids|
  {
    if kids == [] then [] else [Denote(kids[0], caseSensitive)] + DenoteAll(kids[1..], caseSensitive)
  }

  function DenoteMembers(kids: seq<Item>, caseSensitive: bool): map<seq<byte>, Value> {
    if kids == [] then map[]
    else DenoteMembers(kids[1..], caseSensitive)[Key(kids[0], caseSensitive) := Denote(kids[0], caseSensitive)]
  }

  /** The members have keys, no two the same. */
  predicate DistinctKeys(kids: seq<Item>, caseSensitive: bool) {
    && (forall i :: 0 <= i < |kids| ==> kids[i].name.Chars?)
    && forall i, j :: 0 <= i < j < |kids| ==> Key(kids[i], caseSensitive) != Key(kids[j], caseSensitive)
  }

  /** Strings are there, and so are keys, which differ. */
  predicate Comparable(it: Item, caseSensitive: bool) {
    && it.kind != Invalid
    && ((it.kind == String || it.kind == Raw) ==> it.text.Chars?)
    && (it.kind == Object ==> DistinctKeys(it.kids, caseSensitive))
    && ((it.kind == Object || it.kind == Array) ==> ComparableAll(it.kids, caseSensitive))
  }

  predicate ComparableAll(kids: seq<Item>, caseSensitive: bool) {
    forall i :: 0 <= i < |kids| ==> Comparable(kids[i], caseSensitive)
  }

  /** All numbers are 32-bit integers. */
  predicate Integral(it: Item) {
    && (it.kind == Number ==> IsInt(it.num))
    && forall i :: 0 <= i < |it.kids| ==> Integral(it.kids[i])
  }

  // ---- lookup

  lemma {:induction false} FindsOwn(kids: seq<Item>, name: CString, i: nat, caseSensitive: bool)
    requires DistinctKeys(kids, caseSensitive) && i < |kids|
    requires Matches(name, kids[i].name, caseSensitive)
    ensures GetObjectItem(kids, name, caseSensitive) == i
    decreases i
  {
    if i > 0 {
      assert Key(kids[0], caseSensitive) != Key(kids[i], caseSensitive);
      FindsOwn(kids[1..], name, i - 1, caseSensitive);
    }
  }

  lemma {:induction false} TableKeys(kids: seq<Item>, k: seq<byte>, caseSensitive: bool)
    ensures k in DenoteMembers(kids, caseSensitive) <==> exists i :: 0 <= i < |kids| && Key(kids[i], caseSensitive) == k
  {
    if kids != [] {
      TableKeys(kids[1..], k, caseSensitive);
      if exists i :: 0 <= i < |kids| && Key(kids[i], caseSensitive) == k {
        var i :| 0 <= i < |kids| && Key(kids[i], caseSensitive) == k;
        if i > 0 { assert kids[1..][i - 1] == kids[i]; }
      }
      if k in DenoteMembers(kids[1..], caseSensitive) {
        var i :| 0 <= i < |kids| - 1 && Key(kids[1..][i], caseSensitive) == k;
        assert kids[i + 1] == kids[1..][i];
      }
    }
  }

  lemma {:induction false} TableAt(kids: seq<Item>, i: nat, caseSensitive: bool)
    requires DistinctKeys(kids, caseSensitive) && i < |kids|
    ensures Key(kids[i], caseSensitive) in DenoteMembers(kids, caseSensitive)
    ensures DenoteMembers(kids, caseSensitive)[Key(kids[i], caseSensitive)] == Denote(kids[i], caseSensitive)
    decreases i
  {
    if i > 0 {
      assert Key(kids[0], caseSensitive) != Key(kids[i], caseSensitive);
      assert kids[1..][i - 1] == kids[i];
      TableAt(kids[1..], i - 1, caseSensitive);
    }
  }

  // ---- numbers

  /** The tolerance is finer than the distance of two 32-bit integers. */
  lemma IntsCompare(a: real, b: real)
    requires IsInt(a) && IsInt(b)
    ensures CompareDouble(a, b) <==> a == b
  {
    IntBounds(a);
    IntBounds(b);
    var m := if Abs(a) > Abs(b) then Abs(a) else Abs(b);
    Tolerance(m);
    if a != b {
      IntsApart(a.Floor, b.Floor);
    } else {
      assert Abs(a - b) == 0.0;
    }
  }

  lemma IntBounds(a: real)
    requires IsInt(a)
    ensures Abs(a) <= 2147483648.0
  {}

  lemma Tolerance(m: real)
    requires 0.0 <= m <= 2147483648.0
    ensures 0.0 <= m * DBL_EPSILON < 1.0
  {}

  lemma IntsApart(m: int, n: int)
    requires m != n
    ensures Abs(m as real - n as real) >= 1.0
  {
    assert m as real - n as real == (m - n) as real;
  }

  /** A number is close to itself. */
  lemma SelfClose(a: real)
    ensures CompareDouble(a, a)
  {
    assert Abs(a) * DBL_EPSILON >= 0.0;
  }

  // ---- the main results

  /** Comparison decides equality of the values. */
  lemma {:induction false} CompareIsEquality(a: Item, b: Item, caseSensitive: bool)
    requires Comparable(a, caseSensitive) && Integral(a)
    requires Comparable(b, caseSensitive) && Integral(b)
    ensures Compare(a, b, caseSensitive) <==> Denote(a, caseSensitive) == Denote(b, caseSensitive)
    decreases a, 1
  {
    hide Includes, CompareElements, CompareDouble, DenoteAll, DenoteMembers, DistinctKeys;
    if a.kind == b.kind {
      match a.kind {
        case Number => IntsCompare(a.num, b.num);
        case Array => ElementsAreEqual(a.kids, b.kids, caseSensitive);
        case Object => MembersAreEqual(a.kids, b.kids, caseSensitive);
        case _ =>
      }
    }
  }

  lemma {:induction false} ElementsAreEqual(xs: seq<Item>, ys: seq<Item>, caseSensitive: bool)
    requires forall i :: 0 <= i < |xs| ==> Comparable(xs[i], caseSensitive) && Integral(xs[i])
    requires forall i :: 0 <= i < |ys| ==> Comparable(ys[i], caseSensitive) && Integral(ys[i])
    ensures CompareElements(xs, ys, caseSensitive) <==> DenoteAll(xs, caseSensitive) == DenoteAll(ys, caseSensitive)
    decreases xs, 0
  {
    hide Compare, Denote;
    if xs != [] && ys != [] {
      CompareIsEquality(xs[0], ys[0], caseSensitive);
      ElementsAreEqual(xs[1..], ys[1..], caseSensitive);
      Cons(Denote(xs[0], caseSensitive), DenoteAll(xs[1..], caseSensitive));
      Cons(Denote(ys[0], caseSensitive), DenoteAll(ys[1..], caseSensitive));
    }
  }

  /** Every entry of the first table, from position `i` on, is in the second. */
  ghost predicate Within(xs: seq<Item>, ys: seq<Item>, i: nat, caseSensitive: bool) {
    var m := DenoteMembers(ys, caseSensitive);
    forall k :: i <= k < |xs| ==> Key(xs[k], caseSensitive) in m && m[Key(xs[k], caseSensitive)] == Denote(xs[k], caseSensitive)
  }

  lemma {:induction false} MembersAreEqual(xs: seq<Item>, ys: seq<Item>, caseSensitive: bool)
    requires DistinctKeys(xs, caseSensitive) && DistinctKeys(ys, caseSensitive)
    requires forall i :: 0 <= i < |xs| ==> Comparable(xs[i], caseSensitive) && Integral(xs[i])
    requires forall i :: 0 <= i < |ys| ==> Comparable(ys[i], caseSensitive) && Integral(ys[i])
    ensures (Includes(xs, ys, 0, caseSensitive) && Includes(ys, xs, 0, caseSensitive))
            <==> DenoteMembers(xs, caseSensitive) == DenoteMembers(ys, caseSensitive)
    decreases xs, 1
  {
    hide Includes, DenoteMembers, Denote, Comparable, Integral;
    IncludesIsWithin(xs, ys, 0, caseSensitive);
    BackIncludesIsWithin(xs, ys, 0, caseSensitive);
    var m, n := DenoteMembers(xs, caseSensitive), DenoteMembers(ys, caseSensitive);
    if Within(xs, ys, 0, caseSensitive) && Within(ys, xs, 0, caseSensitive) {
      forall k ensures k in m ==> k in n && m[k] == n[k] {
        TableKeys(xs, k, caseSensitive);
        if k in m {
          var i :| 0 <= i < |xs| && Key(xs[i], caseSensitive) == k;
          TableAt(xs, i, caseSensitive);
        }
      }
      forall k ensures k in n ==> k in m {
        TableKeys(ys, k, caseSensitive);
        if k in n {
          var i :| 0 <= i < |ys| && Key(ys[i], caseSensitive) == k;
        }
      }
      assert m == n;
    }
    if m == n {
      forall i | 0 <= i < |xs| ensures Key(xs[i], caseSensitive) in n && n[Key(xs[i], caseSensitive)] == Denote(xs[i], caseSensitive) {
        TableAt(xs, i, caseSensitive);
      }
      forall i | 0 <= i < |ys| ensures Key(ys[i], caseSensitive) in m && m[Key(ys[i], caseSensitive)] == Denote(ys[i], caseSensitive) {
        TableAt(ys, i, caseSensitive);
      }
    }
  }

  /** What the lookup finds, and what the table holds. */
  lemma LookupIsTable(ys: seq<Item>, x: Item, caseSensitive: bool)
    requires DistinctKeys(ys, caseSensitive) && x.name.Chars?
    ensures var j := GetObjectItem(ys, x.name, caseSensitive);
            var m := DenoteMembers(ys, caseSensitive);
            && (j < |ys| <==> Key(x, caseSensitive) in m)
            && (j < |ys| ==> m[Key(x, caseSensitive)] == Denote(ys[j], caseSensitive))
  {
    hide Denote, DenoteMembers;
    var j := GetObjectItem(ys, x.name, caseSensitive);
    TableKeys(ys, Key(x, caseSensitive), caseSensitive);
    if j < |ys| {
      TableAt(ys, j, caseSensitive);
    } else if Key(x, caseSensitive) in DenoteMembers(ys, caseSensitive) {
      var i :| 0 <= i < |ys| && Key(ys[i], caseSensitive) == Key(x, caseSensitive);
      FindsOwn(ys, x.name, i, caseSensitive);
    }
  }

  lemma {:induction false} IncludesIsWithin(xs: seq<Item>, ys: seq<Item>, i: nat, caseSensitive: bool)
    requires DistinctKeys(xs, caseSensitive) && DistinctKeys(ys, caseSensitive) && i <= |xs|
    requires forall i :: 0 <= i < |xs| ==> Comparable(xs[i], caseSensitive) && Integral(xs[i])
    requires forall i :: 0 <= i < |ys| ==> Comparable(ys[i], caseSensitive) && Integral(ys[i])
    ensures Includes(xs, ys, i, caseSensitive) <==> Within(xs, ys, i, caseSensitive)
    decreases xs, 0, |xs| - i
  {
    hide Compare, Denote, DenoteMembers, Comparable, Integral;
    if i < |xs| {
      LookupIsTable(ys, xs[i], caseSensitive);
      var j := GetObjectItem(ys, xs[i].name, caseSensitive);
      if j < |ys| {
        CompareIsEquality(xs[i], ys[j], caseSensitive);
      }
      IncludesIsWithin(xs, ys, i + 1, caseSensitive);
    }
  }

  /** The second loop, from the other list, by the same measure. */
  lemma {:induction false} BackIncludesIsWithin(xs: seq<Item>, ys: seq<Item>, i: nat, caseSensitive: bool)
    requires DistinctKeys(xs, caseSensitive) && DistinctKeys(ys, caseSensitive) && i <= |ys|
    requires forall i :: 0 <= i < |xs| ==> Comparable(xs[i], caseSensitive) && Integral(xs[i])
    requires forall i :: 0 <= i < |ys| ==> Comparable(ys[i], caseSensitive) && Integral(ys[i])
    ensures Includes(ys, xs, i, caseSensitive) <==> Within(ys, xs, i, caseSensitive)
    decreases xs, 0, |ys| - i
  {
    hide Compare, Denote, DenoteMembers, Comparable, Integral;
    if i < |ys| {
      LookupIsTable(xs, ys[i], caseSensitive);
      var j := GetObjectItem(xs, ys[i].name, caseSensitive);
      if j < |xs| {
        CompareIsEquality(xs[j], ys[i], caseSensitive);
        Symmetric(xs[j], ys[i], caseSensitive);
      }
      BackIncludesIsWithin(xs, ys, i + 1, caseSensitive);
    }
  }

  // ---- an item and its copy

  /** When an item equals itself: its strings are there, and each lookup of a member's own key finds an equal member. */
  predicate SelfEqual(it: Item, caseSensitive: bool)
    decreases it, 0
  {
    && it.kind != Invalid
    && ((it.kind == String || it.kind == Raw) ==> it.text.Chars?)
    && (it.kind == Array ==> forall i :: 0 <= i < |it.kids| ==> SelfEqual(it.kids[i], caseSensitive))
    && (it.kind == Object ==> AllSelfEqual(it.kids, 0, caseSensitive))
  }

  predicate AllSelfEqual(kids: seq<Item>, from: nat, caseSensitive: bool)
    decreases kids, 2
  {
    forall i :: from <= i < |kids| ==> MemberSelfEqual(kids, i, caseSensitive)
  }

  /** The first member with a key has to equal itself, a later one has to equal the first. */
  predicate MemberSelfEqual(kids: seq<Item>, i: nat, caseSensitive: bool)
    requires i < |kids|
    decreases kids, 1
  {
    var j := GetObjectItem(kids, kids[i].name, caseSensitive);
    if j == i then SelfEqual(kids[i], caseSensitive) else j < |kids| && Compare(kids[i], kids[j], caseSensitive)
  }

  /** Whatever its numbers and keys, an item equals itself, hence its copy, exactly then. */
  lemma {:induction false} EqualsItself(it: Item, caseSensitive: bool)
    ensures Compare(it, it, caseSensitive) <==> SelfEqual(it, caseSensitive)
    decreases it, 1
  {
    hide Includes, CompareElements, CompareDouble, GetObjectItem;
    match it.kind {
      case Number => SelfClose(it.num);
      case Array => ElementsEqualThemselves(it.kids, caseSensitive);
      case Object =>
        MembersEqualThemselves(it.kids, 0, caseSensitive);
      case _ =>
    }
  }

  lemma MemberIs(kids: seq<Item>, i: nat, caseSensitive: bool)
    requires i < |kids| && (Compare(kids[i], kids[i], caseSensitive) <==> SelfEqual(kids[i], caseSensitive))
    ensures var j := GetObjectItem(kids, kids[i].name, caseSensitive);
            MemberSelfEqual(kids, i, caseSensitive) <==> j < |kids| && Compare(kids[i], kids[j], caseSensitive)
  {
    hide Compare, SelfEqual, GetObjectItem;
  }

  lemma {:induction false} ElementsEqualThemselves(kids: seq<Item>, caseSensitive: bool)
    ensures CompareElements(kids, kids, caseSensitive) <==>
            forall i :: 0 <= i < |kids| ==> SelfEqual(kids[i], caseSensitive)
    decreases kids, 0
  {
    hide Compare, SelfEqual;
    if kids != [] {
      EqualsItself(kids[0], caseSensitive);
      ElementsEqualThemselves(kids[1..], caseSensitive);
      assert forall i :: 0 < i < |kids| ==> kids[i] == kids[1..][i - 1];
    }
  }

  lemma {:induction false} MembersEqualThemselves(kids: seq<Item>, from: nat, caseSensitive: bool)
    requires from <= |kids|
    ensures Includes(kids, kids, from, caseSensitive) <==>
            AllSelfEqual(kids, from, caseSensitive)
    decreases kids, 0, |kids| - from
  {
    hide Compare, SelfEqual, GetObjectItem, MemberSelfEqual;
    if from < |kids| {
      EqualsItself(kids[from], caseSensitive);
      MembersEqualThemselves(kids, from + 1, caseSensitive);
      var j := GetObjectItem(kids, kids[from].name, caseSensitive);
      MemberIs(kids, from, caseSensitive);
      assert AllSelfEqual(kids, from, caseSensitive) <==>
             MemberSelfEqual(kids, from, caseSensitive) && AllSelfEqual(kids, from + 1, caseSensitive);
    }
  }

  /** Strings that are there and keys that differ are enough, */
  lemma Reflexive(it: Item, caseSensitive: bool)
    requires Comparable(it, caseSensitive)
    ensures SelfEqual(it, caseSensitive) && Compare(it, it, caseSensitive)
  {
    ComparableEqualsItself(it, caseSensitive);
    EqualsItself(it, caseSensitive);
  }

  lemma {:induction false} ComparableEqualsItself(it: Item, caseSensitive: bool)
    requires Comparable(it, caseSensitive)
    ensures SelfEqual(it, caseSensitive)
    decreases it
  {
    hide Compare, GetObjectItem;
    if it.kind == Array || it.kind == Object {
      forall i | 0 <= i < |it.kids| ensures SelfEqual(it.kids[i], caseSensitive) {
        ComparableEqualsItself(it.kids[i], caseSensitive);
      }
    }
    if it.kind == Object {
      forall i | 0 <= i < |it.kids| ensures MemberSelfEqual(it.kids, i, caseSensitive) {
        FindsOwn(it.kids, it.kids[i].name, i, caseSensitive);
      }
      assert AllSelfEqual(it.kids, 0, caseSensitive);
    }
  }

  /** but with a repeated key an object equals itself or not, as its first members and the later ones compare. */
  lemma RepeatedKey(a: Item, b: Item, caseSensitive: bool)
    requires a.name.Chars? && a.name == b.name
    ensures var it := BLANK.(kind := Object, kids := [a, b]);
            Compare(it, it, caseSensitive) <==> SelfEqual(a, caseSensitive) && Compare(b, a, caseSensitive)
  {
    hide Compare;
    var kids := [a, b];
    var it := BLANK.(kind := Object, kids := kids);
    EqualsItself(it, caseSensitive);
    assert GetObjectItem(kids, a.name, caseSensitive) == 0;
    assert MemberSelfEqual(kids, 0, caseSensitive) == SelfEqual(a, caseSensitive);
    assert MemberSelfEqual(kids, 1, caseSensitive) == Compare(b, a, caseSensitive);
    assert SelfEqual(it, caseSensitive) == (MemberSelfEqual(kids, 0, caseSensitive) && MemberSelfEqual(kids, 1, caseSensitive));
  }

  /** An input that is not equal to itself: the key "a" first with null, then with true. */
  lemma RepeatedKeyFails(caseSensitive: bool)
    ensures var key := Chars([97]);
            var it := BLANK.(kind := Object, kids := [BLANK.(kind := Null, name := key), BLANK.(kind := True, name := key)]);
            !Compare(it, it, caseSensitive)
  {
    var key := Chars([97]);
    RepeatedKey(BLANK.(kind := Null, name := key), BLANK.(kind := True, name := key), caseSensitive);
  }

  /** A copy that was not refused is made of every item that is not too deep, and compares equal to its source exactly if that equals itself. */
  method DuplicateCompares(mem: Memory, item: Node, caseSensitive: bool, ghost t: Tree)
    returns (copy: Node?, equal: bool, ghost made: seq<Tree>)
    requires item == t.node && Source(mem, t)
    modifies mem
    ensures copy == null ==> mem.live == old(mem.live) && (mem.refusals > old(mem.refusals) || !WithinLimit(ItemOf(t), 0))
    ensures copy != null ==> WithinLimit(ItemOf(t), 0)
    ensures copy != null ==> |made| == 1 && made[0].node == copy && Fresh(mem, old(mem.live), made[0])
    ensures copy != null ==> ItemOf(made[0]) == ItemOf(t) && equal == SelfEqual(ItemOf(t), caseSensitive)
  {
    hide Compare, SelfEqual, WithinLimit, Fresh, Readable, Reach, ItemOf;
    equal := false;
    copy, made := DuplicateRec(mem, item, 0, true, t);
    if copy != null {
      FreshReads(mem, old(mem.live), made[0]);
      equal := CompareNodes(item, copy, caseSensitive, t, made[0], mem.live);
      EqualsItself(ItemOf(t), caseSensitive);
    }
  }

  lemma {:induction false} FreshReads(mem: Memory, base: set<object>, c: Tree)
    requires Fresh(mem, base, c)
    ensures Readable(c) && Reach(c) !! base && Reach(c) <= mem.live && Inner(c) <= mem.live
  {
    hide Shape, Separate, Foot, Reach, Readable;
    PlainReach(c);
    PlainReadable(c);
  }
}
