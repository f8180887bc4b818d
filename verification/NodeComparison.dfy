/**
 `cJSON_Compare` and the lookup of members on the nodes themselves.
 */
module NodeComparison {
  import opened Bytes
  import opened Items
  import opened Heap
  import opened Trees
  import opened Reading
  import opened Comparison

  /** `get_object_item`, from the first member on. */
  method FindMember(head: Node?, name: CString, caseSensitive: bool, ghost ts: seq<Tree>, ghost live: set<object>)
    returns (member: Node?)
    requires head == Head(ts) && List(ts) && Reaches(ts) <= live
    ensures var j := GetObjectItem(ItemsOf(ts), name, caseSensitive);
            member == (if j < |ts| then ts[j].node else null) && Finds(ItemsOf(ts), name, caseSensitive, j)
  {
    hide List, Reaches, ItemsOf, ItemOf, Matches, GetObjectItem, Finds;
    LookupFinds(ItemsOf(ts), name, caseSensitive);
    if name == NoString {
      NoMember(ItemsOf(ts), name, caseSensitive);
      return null;
    }
    ghost var items, i := ItemsOf(ts), 0;
    assert items[0..] == items;
    NoMember([], name, caseSensitive);
    member := head;
    while member != null
      invariant i <= |ts| && member == if i < |ts| then ts[i].node else null
      invariant GetObjectItem(items, name, caseSensitive) == i + GetObjectItem(items[i..], name, caseSensitive)
      decreases |ts| - i
    {
      MemberName(ts, i);
      LookupStep(items, name, i, caseSensitive);
      var key := LoadKey(member, ts[i].name);
      if caseSensitive && key == NoString {
        return null;
      }
      var same := SameKey(name, key, caseSensitive);
      if same {
        return;
      }
      ListSteps(ts, i);
      member := member.next;
      i := i + 1;
    }
  }

  lemma NoMember(items: seq<Item>, name: CString, caseSensitive: bool)
    requires items == [] || name == NoString
    ensures GetObjectItem(items, name, caseSensitive) == |items|
  {}

  /** What the lookup makes of the member at `i`. */
  lemma LookupStep(items: seq<Item>, name: CString, i: nat, caseSensitive: bool)
    requires i < |items| && name.Chars?
    ensures GetObjectItem(items[i..], name, caseSensitive) ==
            if Matches(name, items[i].name, caseSensitive) then 0
            else if caseSensitive && items[i].name.NoString? then |items| - i
            else 1 + GetObjectItem(items[i + 1..], name, caseSensitive)
    ensures Matches(name, items[i].name, caseSensitive) ==> items[i].name.Chars?
  {
    hide Folded;
    assert items[i..][0] == items[i] && items[i..][1..] == items[i + 1..];
  }

  lemma {:induction false} MemberName(ts: seq<Tree>, i: nat)
    requires List(ts) && i < |ts|
    ensures var t := ts[i];
            && t.node.name == Pointer(t.name) && t.node.constKey == ConstOf(t.name) && Written(t.name)
            && ItemsOf(ts)[i].name == CharsOf(t.name)
  {
    hide List;
    ListReadable(ts, i);
    ItemsAt(ts, i);
  }

  /** `strcmp`, or its variant without case, finds no difference. */
  method SameKey(name: CString, key: CString, caseSensitive: bool) returns (same: bool)
    requires name.Chars? && (caseSensitive ==> key.Chars?)
    ensures same == Matches(name, key, caseSensitive)
  {
    if caseSensitive {
      return name == key;
    }
    var r := CaseInsensitiveStrcmp(name, key);
    if key.Chars? {
      FoldedChars(name.chars, false);
      FoldedChars(key.chars, false);
      OrderMeans(Folded(name.chars, false), Folded(key.chars, false));
    }
    return r == 0;
  }

  /** What comparing two nodes says of the items: the values decide, unless the trees have nodes in common. */
  ghost predicate Decides(ok: bool, t: Tree, u: Tree, caseSensitive: bool) {
    && (Compare(ItemOf(t), ItemOf(u), caseSensitive) ==> ok)
    && (Reach(t) !! Reach(u) && ok ==> Compare(ItemOf(t), ItemOf(u), caseSensitive))
  }

  /** `cJSON_Compare`: a node is equal to itself without a look at its value. */
  method CompareNodes(a: Node?, b: Node?, caseSensitive: bool, ghost t: Tree, ghost u: Tree, ghost live: set<object>)
    returns (ok: bool)
    requires a != null ==> a == t.node && Readable(t) && Reach(t) <= live
    requires b != null ==> b == u.node && Readable(u) && Reach(u) <= live
    ensures a == null || b == null ==> !ok
    ensures a != null && a == b ==> ok == (a.kind != Invalid)
    ensures a != null && b != null ==> Decides(ok, t, u, caseSensitive)
    decreases Size(ItemOf(t)) + Size(ItemOf(u)), 2
  {
    hide List, ItemsOf, Reach, Reaches, CompareElements, Includes, CompareDouble;
    if a == null || b == null || a.kind != b.kind || a.kind == Invalid {
      return false;
    }
    if a == b {
      return true;
    }
    match a.kind {
      case False | True | Null =>
        ok := true;
      case Number =>
        ok := CompareDouble(a.num, b.num);
      case String | Raw =>
        var x := LoadString(a.text, t.text);
        var y := LoadString(b.text, u.text);
        ok := x != NoString && x == y;
      case Array =>
        ok := CompareLists(a.child, b.child, caseSensitive, t, u, live);
      case Object =>
        ok := IncludesAll(a.child, b.child, caseSensitive, t, u, live);
        if ok {
          ok := IncludesAll(b.child, a.child, caseSensitive, u, t, live);
        }
    }
  }

  /** The case of arrays: side by side. */
  method CompareLists(headA: Node?, headB: Node?, caseSensitive: bool, ghost t: Tree, ghost u: Tree, ghost live: set<object>)
    returns (ok: bool)
    requires headA == Head(t.kids) && List(t.kids) && Reach(t) <= live
    requires headB == Head(u.kids) && List(u.kids) && Reach(u) <= live
    ensures CompareElements(ItemsOf(t.kids), ItemsOf(u.kids), caseSensitive) ==> ok
    ensures Reach(t) !! Reach(u) && ok ==> CompareElements(ItemsOf(t.kids), ItemsOf(u.kids), caseSensitive)
    decreases Size(ItemOf(t)) + Size(ItemOf(u)), 1
  {
    hide List, ItemsOf, Reach, Reaches, Compare;
    ghost var ts, us := t.kids, u.kids;
    ghost var xs, ys, i := ItemsOf(ts), ItemsOf(us), 0;
    assert xs[0..] == xs && ys[0..] == ys;
    var a, b := headA, headB;
    while a != null && b != null
      invariant i <= |ts| && i <= |us|
      invariant a == (if i < |ts| then ts[i].node else null) && b == (if i < |us| then us[i].node else null)
      invariant CompareElements(xs, ys, caseSensitive) ==> CompareElements(xs[i..], ys[i..], caseSensitive)
      invariant Reach(t) !! Reach(u) && CompareElements(xs[i..], ys[i..], caseSensitive) ==> CompareElements(xs, ys, caseSensitive)
      decreases |ts| - i
    {
      KidOf(t, i);
      KidOf(u, i);
      ElementsTurn(xs, ys, i, caseSensitive);
      ok := CompareNodes(a, b, caseSensitive, ts[i], us[i], live);
      if !ok {
        return;
      }
      ListSteps(ts, i);
      ListSteps(us, i);
      a, b := a.next, b.next;
      i := i + 1;
    }
    ok := a == b;
    ListsEnd(xs, ys, i, caseSensitive);
  }

  lemma {:induction false} KidOf(t: Tree, i: nat)
    requires List(t.kids) && i < |t.kids|
    ensures Readable(t.kids[i]) && Reach(t.kids[i]) <= Reach(t)
    ensures ItemsOf(t.kids)[i] == ItemOf(t.kids[i]) && Size(ItemOf(t.kids[i])) < Size(ItemOf(t))
  {
    hide List, ItemsOf;
    ListReadable(t.kids, i);
    ItemsAt(t.kids, i);
    KidSmaller(ItemsOf(t.kids), i);
    assert Reach(t.kids[i]) <= Reaches(t.kids);
  }

  lemma ElementsTurn(xs: seq<Item>, ys: seq<Item>, i: nat, caseSensitive: bool)
    requires i < |xs| && i < |ys|
    ensures CompareElements(xs[i..], ys[i..], caseSensitive) <==>
            Compare(xs[i], ys[i], caseSensitive) && CompareElements(xs[i + 1..], ys[i + 1..], caseSensitive)
  {
    hide Compare;
    assert xs[i..][1..] == xs[i + 1..] && ys[i..][1..] == ys[i + 1..];
  }

  lemma ListsEnd(xs: seq<Item>, ys: seq<Item>, i: nat, caseSensitive: bool)
    requires i <= |xs| && i <= |ys| && (i == |xs| || i == |ys|)
    ensures CompareElements(xs[i..], ys[i..], caseSensitive) <==> i == |xs| == |ys|
  {
    assert i < |xs| ==> xs[i..] != [];
    assert i < |ys| ==> ys[i..] != [];
  }

  /** One half of the case of objects: each member of the first has an equal one in the second. */
  method IncludesAll(headA: Node?, headB: Node?, caseSensitive: bool, ghost t: Tree, ghost u: Tree, ghost live: set<object>)
    returns (ok: bool)
    requires headA == Head(t.kids) && List(t.kids) && Reach(t) <= live
    requires headB == Head(u.kids) && List(u.kids) && Reach(u) <= live
    ensures Includes(ItemsOf(t.kids), ItemsOf(u.kids), 0, caseSensitive) ==> ok
    ensures Reach(t) !! Reach(u) && ok ==> Includes(ItemsOf(t.kids), ItemsOf(u.kids), 0, caseSensitive)
    decreases Size(ItemOf(t)) + Size(ItemOf(u)), 1
  {
    hide List, ItemsOf, Reach, Reaches, Compare;
    ghost var ts, us := t.kids, u.kids;
    ghost var xs, ys, i := ItemsOf(ts), ItemsOf(us), 0;
    var a := headA;
    while a != null
      invariant i <= |ts| && a == if i < |ts| then ts[i].node else null
      invariant Includes(xs, ys, 0, caseSensitive) ==> Includes(xs, ys, i, caseSensitive)
      invariant Reach(t) !! Reach(u) && Includes(xs, ys, i, caseSensitive) ==> Includes(xs, ys, 0, caseSensitive)
      decreases |ts| - i
    {
      KidOf(t, i);
      MemberName(ts, i);
      var name := LoadKey(a, ts[i].name);
      var b := FindMember(headB, name, caseSensitive, us, live);
      ghost var j := GetObjectItem(ys, name, caseSensitive);
      if b == null {
        return false;
      }
      KidOf(u, j);
      ok := CompareNodes(a, b, caseSensitive, ts[i], us[j], live);
      if !ok {
        return;
      }
      ListSteps(ts, i);
      a := a.next;
      i := i + 1;
    }
    ok := true;
  }
}
