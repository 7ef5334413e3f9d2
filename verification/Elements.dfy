/**
 The list elements of utlist.h and uthash.h. An element carries the application's data,
 its hash key, the pointers of the application-order list (prev, next) and those of the
 bucket chain it is threaded on (hhPrev, hhNext).
 */
module Elements {
  /** The bytes of the key, and of the enclosing structure as far as cmp looks at it. */
  type Key = seq<nat>
  type Data = seq<int>

  class Elt {
    const data: Data
    const key: Key
    var hashv: nat
    var prev: Elt?
    var next: Elt?
    var hhPrev: Elt?
    var hhNext: Elt?

    constructor (key: Key, data: Data)
      ensures this.key == key && this.data == data
      ensures prev == null && next == null && hhPrev == null && hhNext == null
    {
      this.key, this.data, hashv := key, data, 0;
      prev, next, hhPrev, hhNext := null, null, null, null;
    }
  }

  /** The element at index k, or null beyond either end. */
  function At(s: seq<Elt>, k: int): Elt? {
    if 0 <= k < |s| then s[k] else null
  }

  /** The elements of s from index b on are linked by next, ending in null. */
  ghost predicate NextFrom(s: seq<Elt>, b: nat)
    reads s`next
  {
    forall k {:trigger s[k].next} :: b <= k < |s| ==> s[k].next == At(s, k + 1)
  }

  /** Every element of s points back to the one before it, the first to null. */
  ghost predicate PrevLinks(s: seq<Elt>)
    reads s`prev
  {
    forall k {:trigger s[k].prev} :: 0 <= k < |s| ==> s[k].prev == At(s, k - 1)
  }

  ghost predicate HhLinks(s: seq<Elt>)
    reads s`hhNext, s`hhPrev
  {
    && (forall k {:trigger s[k].hhNext} :: 0 <= k < |s| ==> s[k].hhNext == At(s, k + 1))
    && (forall k {:trigger s[k].hhPrev} :: 0 <= k < |s| ==> s[k].hhPrev == At(s, k - 1))
  }

  function ByCmp(cmp: (Data, Data) -> int): (Elt, Elt) -> bool {
    (a: Elt, b: Elt) => cmp(a.data, b.data) <= 0
  }
}
