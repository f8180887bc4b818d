/**
 The sibling list as a sequence of nodes: `next` runs through it to null,
 `prev` back through it, and the head's `prev` is the tail. The edits are those
 of sequences.
 */
module Siblings {
  import opened Heap

  ghost function Ref(n: Node?): set<Node> {
    if n == null then {} else {n}
  }

  ghost function Members(ns: seq<Node>): set<Node> {
    set n | n in ns
  }

  ghost predicate Distinct(ns: seq<Node>) {
    forall i, j :: 0 <= i < j < |ns| ==> ns[i] != ns[j]
  }

  ghost predicate Link(p: Node, q: Node)
    reads p`next, q`prev
  {
    p.next == q && q.prev == p
  }

  /** Each node and the one behind it know each other. */
  ghost predicate Linked(ns: seq<Node>)
    reads Members(ns)`next, Members(ns)`prev
  {
    forall i :: 0 <= i < |ns| - 1 ==> Link(ns[i], ns[i + 1])
  }

  ghost predicate Chain(first: Node?, ns: seq<Node>)
    reads Members(ns)`next, Members(ns)`prev
  {
    && Distinct(ns) && Linked(ns)
    && first == (if ns == [] then null else ns[0])
    && (ns != [] ==> ns[|ns| - 1].next == null && ns[0].prev == ns[|ns| - 1])
  }

  lemma LinkedJoin(a: seq<Node>, b: seq<Node>)
    requires Linked(a) && Linked(b)
    requires a != [] && b != [] ==> Link(a[|a| - 1], b[0])
    ensures Linked(a + b)
  {
    var all := a + b;
    forall i | 0 <= i < |all| - 1 ensures Link(all[i], all[i + 1]) {
      if i < |a| - 1 {
        assert all[i] == a[i] && all[i + 1] == a[i + 1];
      } else if i == |a| - 1 {
        assert all[i] == a[|a| - 1] && all[i + 1] == b[0];
      } else {
        assert all[i] == b[i - |a|] && all[i + 1] == b[i + 1 - |a|];
      }
    }
  }

  /** The links at position `k`. */
  lemma Around(first: Node?, ns: seq<Node>, k: nat)
    requires Chain(first, ns) && k < |ns|
    ensures first == ns[0]
    ensures ns[k].next == if k + 1 < |ns| then ns[k + 1] else null
    ensures ns[k].prev == ns[if k == 0 then |ns| - 1 else k - 1]
    ensures ns[k] == first <==> k == 0
    ensures ns[k].prev == ns[k] <==> |ns| == 1
  {
    assert k > 0 ==> Link(ns[k - 1], ns[k]);
    assert k + 1 < |ns| ==> Link(ns[k], ns[k + 1]);
  }

  /** The two sides of position `k`, before any change. */
  lemma Sides(first: Node?, ns: seq<Node>, k: nat)
    requires Chain(first, ns) && k < |ns|
    ensures Linked(ns[..k]) && Linked(ns[k + 1..]) && Linked(ns[k..])
    ensures Distinct(ns[..k]) && Distinct(ns[k + 1..])
    ensures ns[k] !in ns[..k] && ns[k] !in ns[k + 1..]
    ensures forall x :: x in ns[..k] ==> x !in ns[k + 1..]
  {
    LinkedSlice(ns, 0, k);
    LinkedSlice(ns, k, |ns|);
    LinkedSlice(ns, k + 1, |ns|);
    assert ns[0..k] == ns[..k];
  }

  lemma LinkedSlice(ns: seq<Node>, lo: nat, hi: nat)
    requires Linked(ns) && lo <= hi <= |ns|
    ensures Linked(ns[lo..hi])
  {
    var s := ns[lo..hi];
    forall i | 0 <= i < |s| - 1 ensures Link(s[i], s[i + 1]) {
      assert Link(ns[lo + i], ns[lo + i + 1]);
    }
  }

  lemma DistinctJoin(a: seq<Node>, b: seq<Node>)
    requires Distinct(a) && Distinct(b) && forall x :: x in a ==> x !in b
    ensures Distinct(a + b)
  {
    var all := a + b;
    forall i, j | 0 <= i < j < |all| ensures all[i] != all[j] {
      assert all[i] == if i < |a| then a[i] else b[i - |a|];
      assert all[j] == if j < |a| then a[j] else b[j - |a|];
      assert i < |a| <= j ==> a[i] in a && b[j - |a|] in b;
    }
  }

  /** The nodes at the ends of two lists that are to follow each other. */
  ghost predicate Ends(first: Node?, ns: seq<Node>)
    reads Members(ns)`next, Members(ns)`prev
  {
    && first == (if ns == [] then null else ns[0])
    && (ns != [] ==> ns[|ns| - 1].next == null && ns[0].prev == ns[|ns| - 1])
  }

  lemma ChainJoin(first: Node?, a: seq<Node>, b: seq<Node>)
    requires Linked(a) && Linked(b) && Distinct(a) && Distinct(b) && forall x :: x in a ==> x !in b
    requires a != [] && b != [] ==> Link(a[|a| - 1], b[0])
    requires Ends(first, a + b)
    ensures Chain(first, a + b)
  {
    LinkedJoin(a, b);
    DistinctJoin(a, b);
  }

  /** A node between two lists. */
  lemma ChainAround(first: Node?, a: seq<Node>, x: Node, b: seq<Node>)
    requires Linked(a) && Linked(b) && Distinct(a) && Distinct(b) && forall y :: y in a ==> y !in b
    requires x !in a && x !in b
    requires (a != [] ==> Link(a[|a| - 1], x)) && (b != [] ==> Link(x, b[0]))
    requires Ends(first, a + [x] + b)
    ensures Chain(first, a + [x] + b)
  {
    LinkedJoin(a, [x]);
    DistinctJoin(a, [x]);
    ChainJoin(first, a + [x], b);
  }

  /** What the ends around `item` are, with `a` in front of it and `b` behind. */
  ghost predicate Between(first: Node?, a: seq<Node>, item: Node, b: seq<Node>)
    reads item`next, item`prev, Members(a)`prev, Members(b)`next
  {
    && first == (if a == [] then item else a[0])
    && item.next == (if b == [] then null else b[0])
    && item.prev == (if a != [] then a[|a| - 1] else if b != [] then b[|b| - 1] else item)
    && (b != [] ==> b[|b| - 1].next == null)
    && (a != [] ==> a[0].prev == (if b != [] then b[|b| - 1] else item))
  }

  lemma ItemBetween(first: Node?, ns: seq<Node>, k: nat)
    requires Chain(first, ns) && k < |ns|
    ensures Between(first, ns[..k], ns[k], ns[k + 1..])
  {
    Around(first, ns, k);
  }

  /** `get_array_item`. */
  method GetArrayItem(parent: Node?, index: nat, ghost ns: seq<Node>) returns (item: Node?)
    requires parent != null ==> Chain(parent.child, ns)
    ensures item == if parent != null && index < |ns| then ns[index] else null
  {
    if parent == null {
      return null;
    }
    item := parent.child;
    var left: nat := index;
    while item != null && left > 0
      invariant left <= index && (item == null <==> index - left >= |ns|)
      invariant item == if index - left < |ns| then ns[index - left] else null
      decreases left
    {
      Around(parent.child, ns, index - left);
      left := left - 1;
      item := item.next;
    }
  }

  /** `cJSON_GetArraySize`. */
  method GetArraySize(parent: Node?, ghost ns: seq<Node>) returns (size: nat)
    requires parent != null ==> Chain(parent.child, ns)
    ensures size == if parent == null then 0 else |ns|
  {
    size := 0;
    if parent == null {
      return;
    }
    var child := parent.child;
    while child != null
      invariant size <= |ns| && child == if size < |ns| then ns[size] else null
      decreases |ns| - size
    {
      size := size + 1;
      child := child.next;
    }
  }

  /** `suffix_object`. */
  method SuffixObject(prev: Node, item: Node)
    modifies prev`next, item`prev
    ensures prev.next == item && item.prev == prev
    ensures prev != item ==> prev.prev == old(prev.prev) && item.next == old(item.next)
  {
    prev.next := item;
    item.prev := prev;
  }

  /** `add_item_to_array`, of an item that is in no list. */
  method AddItemToArray(parent: Node?, item: Node?, ghost ns: seq<Node>) returns (ok: bool)
    requires parent != null ==> Chain(parent.child, ns)
    requires item != null ==> item !in ns && item.next == null
    modifies Ref(parent)`child, Ref(item)`next, Ref(item)`prev, Members(ns)`next, Members(ns)`prev
    ensures ok == (parent != null && item != null && parent != item)
    ensures ok ==> Chain(parent.child, ns + [item])
    ensures !ok && parent != null ==> Chain(parent.child, ns)
  {
    if item == null || parent == null || parent == item {
      return false;
    }
    var child := parent.child;
    if child == null {
      parent.child := item;
      item.prev := item;
      item.next := null;
    } else if child.prev != null {
      SuffixObject(child.prev, item);
      parent.child.prev := item;
      assert Linked(ns);
      LinkedJoin(ns, [item]);
      DistinctJoin(ns, [item]);
    }
    return true;
  }

  /** The list with `x` at position `k`, or at the end. */
  function Inserted<T>(s: seq<T>, k: nat, x: T): seq<T> {
    if k < |s| then s[..k] + [x] + s[k..] else s + [x]
  }

  function Removed<T>(s: seq<T>, k: nat): seq<T>
    requires k < |s|
  {
    s[..k] + s[k + 1..]
  }

  /** Position by position. */
  lemma InsertedAt<T>(s: seq<T>, k: nat, x: T, i: nat)
    requires i <= |s|
    ensures var at, r := (if k < |s| then k else |s|), Inserted(s, k, x);
            |r| == |s| + 1 && r[i] == if i < at then s[i] else if i == at then x else s[i - 1]
  {}

  /** Taking out what was inserted gives the list back. */
  lemma InsertedRemoved<T>(s: seq<T>, k: nat, x: T)
    ensures Removed(Inserted(s, k, x), if k < |s| then k else |s|) == s
  {}

  /** `cJSON_InsertItemInArray`, of an item that is in no list. */
  method InsertItemInArray(parent: Node?, which: int, newitem: Node?, ghost ns: seq<Node>) returns (ok: bool)
    requires parent != null ==> Chain(parent.child, ns)
    requires newitem != null ==> newitem !in ns && newitem.next == null
    modifies Ref(parent)`child, Ref(newitem)`next, Ref(newitem)`prev, Members(ns)`next, Members(ns)`prev
    ensures ok == (which >= 0 && newitem != null && parent != null && (which < |ns| || parent != newitem))
    ensures ok ==> Chain(parent.child, Inserted<Node>(ns, which, newitem))
    ensures !ok && parent != null ==> Chain(parent.child, ns)
  {
    if which < 0 || newitem == null {
      return false;
    }
    var after := GetArrayItem(parent, which, ns);
    if after == null {
      ok := AddItemToArray(parent, newitem, ns);
      return;
    }
    Around(parent.child, ns, which);
    if after != parent.child && after.prev == null {
      return false;
    }
    InsertBefore(parent, after, newitem, which, ns);
    return true;
  }

  /** The links of `cJSON_InsertItemInArray`. */
  method InsertBefore(parent: Node, after: Node, newitem: Node, ghost k: nat, ghost ns: seq<Node>)
    requires Chain(parent.child, ns) && k < |ns| && after == ns[k]
    requires newitem !in ns
    modifies parent`child, newitem`next, newitem`prev, Members(ns)`next, Members(ns)`prev
    ensures Chain(parent.child, Inserted(ns, k, newitem))
  {
    hide Chain, Linked, Between;
    ghost var a, b := ns[..k], ns[k + 1..];
    Sides(parent.child, ns, k);
    ItemBetween(parent.child, ns, k);
    assert [after] + b == ns[k..];
    Splice(parent, after, newitem, a, b);
  }

  /** The neighbours' side of it. */
  method Splice(parent: Node, after: Node, newitem: Node, ghost a: seq<Node>, ghost b: seq<Node>)
    requires Linked(a) && Linked([after] + b) && Distinct(a) && Distinct(b) && forall x :: x in a ==> x !in b
    requires after !in a && after !in b && newitem !in a && newitem !in b && newitem != after
    requires Between(parent.child, a, after, b)
    modifies parent`child, newitem`next, newitem`prev, after`prev, Members(a)`next
    ensures Chain(parent.child, a + [newitem] + ([after] + b))
  {
    newitem.next := after;
    newitem.prev := after.prev;
    after.prev := newitem;
    if after == parent.child {
      parent.child := newitem;
    } else {
      newitem.prev.next := newitem;
    }
    assert Linked(a);
    assert Linked([after] + b);
    DistinctJoin([after], b);
    ChainAround(parent.child, a, newitem, [after] + b);
  }

  /** `cJSON_DetachItemViaPointer`, of the item at `k`. */
  method DetachItemViaPointer(parent: Node, item: Node, ghost k: nat, ghost ns: seq<Node>) returns (detached: Node?)
    requires Chain(parent.child, ns) && k < |ns| && item == ns[k]
    modifies parent`child, Members(ns)`next, Members(ns)`prev
    ensures detached == item && item.next == null && item.prev == null
    ensures Chain(parent.child, Removed(ns, k))
  {
    hide Chain, Linked, Between;
    ghost var a, b := ns[..k], ns[k + 1..];
    Around(parent.child, ns, k);
    Sides(parent.child, ns, k);
    ItemBetween(parent.child, ns, k);
    if item != parent.child && item.prev == null {
      return null;
    }
    Unlink(parent, item, a, b);
    assert item !in Members(Removed(ns, k));
    item.prev := null;
    item.next := null;
    return item;
  }

  /** The neighbours' side of it. */
  method Unlink(parent: Node, item: Node, ghost a: seq<Node>, ghost b: seq<Node>)
    requires Linked(a) && Linked(b) && Distinct(a) && Distinct(b) && forall x :: x in a ==> x !in b
    requires item !in a && item !in b
    requires Between(parent.child, a, item, b)
    modifies parent`child, Members(a)`next, Members(a)`prev, Members(b)`prev
    ensures Chain(parent.child, a + b)
  {
    if item != parent.child {
      item.prev.next := item.next;
    }
    if item.next != null {
      item.next.prev := item.prev;
    }
    if item == parent.child {
      parent.child := item.next;
    } else if item.next == null {
      parent.child.prev := item.prev;
    }
    assert Linked(a);
    assert Linked(b);
    ChainJoin(parent.child, a, b);
  }

  /** The links of `cJSON_ReplaceItemViaPointer`, from the item at `k` to another one that is in no list. */
  method ReplaceLinks(parent: Node, item: Node, replacement: Node, ghost k: nat, ghost ns: seq<Node>)
    requires Chain(parent.child, ns) && k < |ns| && item == ns[k]
    requires replacement !in ns
    modifies parent`child, Members(ns)`next, Members(ns)`prev, replacement`next, replacement`prev
    ensures item.next == null && item.prev == null
    ensures Chain(parent.child, ns[k := replacement])
  {
    hide Chain, Linked, Between;
    ghost var a, b := ns[..k], ns[k + 1..];
    Sides(parent.child, ns, k);
    ItemBetween(parent.child, ns, k);
    Relink(parent, item, replacement, a, b);
    assert ns[k := replacement] == a + [replacement] + b;
    assert item !in Members(ns[k := replacement]);
    item.next := null;
    item.prev := null;
  }

  /** The neighbours' side of it. */
  method Relink(parent: Node, item: Node, replacement: Node, ghost a: seq<Node>, ghost b: seq<Node>)
    requires Linked(a) && Linked(b) && Distinct(a) && Distinct(b) && forall y :: y in a ==> y !in b
    requires item !in a && item !in b && replacement !in a && replacement !in b && replacement != item
    requires Between(parent.child, a, item, b)
    modifies parent`child, Members(a)`next, Members(a)`prev, Members(b)`next, Members(b)`prev, replacement`next, replacement`prev
    ensures Chain(parent.child, a + [replacement] + b)
  {
    replacement.next := item.next;
    replacement.prev := item.prev;
    if replacement.next != null {
      replacement.next.prev := replacement;
    }
    if parent.child == item {
      if parent.child.prev == parent.child {
        replacement.prev := replacement;
      }
      parent.child := replacement;
    } else {
      if replacement.prev != null {
        replacement.prev.next := replacement;
      }
      if replacement.next == null {
        parent.child.prev := replacement;
      }
    }
    assert Linked(a);
    assert Linked(b);
    ChainAround(parent.child, a, replacement, b);
  }
}
