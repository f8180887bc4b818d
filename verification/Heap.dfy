/**
 The allocator behind cJSON's hooks: any request may be refused, and a ledger
 keeps what is allocated and not yet freed.
 */
module Heap {
  import opened Bytes
  import opened Items

  /**
   `struct cJSON`. `reference` is the type flag for a node that borrows its value.
   A key flagged as constant is kept apart from `name`: nobody writes or frees it.
   */
  class Node {
    var kind: Kind
    var num: real
    var text: array?<byte>
    var name: array?<byte>
    var constKey: CString
    var reference: bool
    var next: Node?
    var prev: Node?
    var child: Node?

    /** What `memset` leaves. */
    constructor ()
      ensures kind == Invalid && num == 0.0 && text == name == null && constKey == NoString && !reference
      ensures next == prev == child == null
    {
      kind, num, text, name, constKey, reference := Invalid, 0.0, null, null, NoString, false;
      next, prev, child := null, null, null;
    }
  }

  class Memory {
    /** Whether the n-th request is granted. */
    const grants: nat -> bool
    /** Whether the hooks include a `realloc`. */
    const reallocates: bool
    /** What is found behind the end of a block. */
    const stray: byte
    var requests: nat
    ghost var live: set<object>
    /** How many requests were refused. */
    ghost var refusals: nat

    constructor (grants: nat -> bool, reallocates: bool, stray: byte)
      ensures this.grants == grants && this.reallocates == reallocates && this.stray == stray
      ensures requests == refusals == 0 && live == {}
    {
      this.grants, this.reallocates, this.stray, requests := grants, reallocates, stray, 0;
      live, refusals := {}, 0;
    }

    /** The bookkeeping of one request. */
    method Ask() returns (granted: bool)
      modifies this`requests, this`refusals
      ensures granted == grants(old(requests)) && requests == old(requests) + 1
      ensures refusals == old(refusals) + (if granted then 0 else 1)
    {
      granted := grants(requests);
      requests := requests + 1;
      refusals := refusals + (if granted then 0 else 1);
    }

    /** `cJSON_New_Item`. */
    method NewNode() returns (node: Node?)
      modifies this
      ensures refusals == old(refusals) + (if node == null then 1 else 0)
      ensures node == null ==> live == old(live)
      ensures node != null ==>
                && fresh(node) && node !in old(live) && live == old(live) + {node}
                && node.kind == Invalid && node.num == 0.0 && node.text == node.name == null
                && node.constKey == NoString && !node.reference
                && node.next == node.prev == node.child == null
    {
      node := null;
      var granted := Ask();
      if granted {
        node := new Node();
        live := live + {node};
      }
    }

    method NewBytes(n: nat) returns (p: array?<byte>)
      modifies this
      ensures refusals == old(refusals) + (if p == null then 1 else 0)
      ensures p == null ==> live == old(live)
      ensures p != null ==> fresh(p) && p !in old(live) && p.Length == n && live == old(live) + {p}
    {
      p := null;
      var granted := Ask();
      if granted {
        p := new byte[n];
        live := live + {p};
      }
    }

    /** A byte read without regard to the end of the block. */
    function Load(block: array<byte>, i: nat): byte
      reads block
    {
      if i < block.Length then block[i] else stray
    }

    /** `realloc`: a refusal leaves the old block alone. */
    method Resize(block: array<byte>, n: nat) returns (p: array?<byte>)
      requires block in live
      modifies this
      ensures refusals == old(refusals) + (if p == null then 1 else 0)
      ensures p == null ==> live == old(live)
      ensures p != null ==> fresh(p) && p.Length == n && live == old(live) - {block} + {p}
      ensures p != null ==> forall i :: 0 <= i < n && i < block.Length ==> p[i] == block[i]
    {
      p := NewBytes(n);
      if p != null {
        forall i | 0 <= i < n && i < block.Length {
          p[i] := block[i];
        }
        Free(block);
      }
    }

    /** Only what is live can be freed, so nothing is freed twice. */
    method Free(o: object)
      requires o in live
      modifies this`live
      ensures live == old(live) - {o}
    {
      live := live - {o};
    }
  }
}
