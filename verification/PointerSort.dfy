/**
 The pointer mergesort shared by LL_SORT2, DL_SORT2 (utlist.h) and HASH_SRT (uthash.h):
 runs are merged in place by relinking next (and prev) while p, q, e and tail walk the list.
 */
module PointerSort {
  import opened Sequences
  import opened MergeSort
  import opened Elements

  /** LL_SORT2 knows no prev; HASH_SRT ends the prev links with null, DL_SORT2 with the tail. */
  datatype Kind = Single | Double | Circular

  /** list/tail hold the output sequence o built so far; the last next is not yet set. */
  ghost predicate Built(o: seq<Elt>, list: Elt?, tail: Elt?, kind: Kind)
    reads o`next, o`prev
  {
    && Distinct(o)
    && list == At(o, 0) && tail == At(o, |o| - 1)
    && (forall k {:trigger o[k].next} :: 0 <= k < |o| - 1 ==> o[k].next == o[k + 1])
    && (kind.Single? || PrevLinks(o))
  }

  method Emit(list: Elt?, tail: Elt?, e: Elt, kind: Kind, ghost o: seq<Elt>)
    returns (list': Elt?, tail': Elt?)
    requires Built(o, list, tail, kind) && e !in o
    modifies (if tail == null then {} else {tail})`next, e`prev
    ensures Built(o + [e], list', tail', kind) && tail' == e
  {
    list' := list;
    if tail != null {
      tail.next := e;
    } else {
      list' := e;
    }
    if !kind.Single? {
      e.prev := tail;
    }
    tail' := e;
    DistinctAppend(o, e);
  }

  /** Walk insize nodes on from p: the start of the q-run and the true size of the p-run. */
  method StepOver(p: Elt, insize: nat, ghost s: seq<Elt>, ghost b: nat)
    returns (q: Elt?, psize: nat)
    requires insize > 0 && b < |s| && p == s[b] && NextFrom(s, b)
    ensures psize == Min(insize, |s| - b)
    ensures q == At(s, b + psize)
  {
    q, psize := p, 0;
    var i := 0;
    while i < insize
      invariant i == psize <= insize && b + psize < |s|
      invariant q == s[b + psize]
    {
      psize := psize + 1;
      q := q.next;
      if q == null { break; }
      i := i + 1;
    }
  }

  /** Where a merge stands: s[i..mid] and s[j..end] are not yet taken. */
  datatype Cursor = Cursor(i: nat, mid: nat, j: nat, end: nat) {
    ghost predicate In<X>(s: seq<X>) {
      i <= mid <= j <= end <= |s|
    }
    ghost predicate Left(k: int) {
      i <= k < mid || j <= k
    }
    ghost function Rest<X>(le: (X, X) -> bool, s: seq<X>): seq<X>
      requires In(s)
    {
      Merge(le, s[i..mid], s[j..end])
    }
    /** The pointers and counters of the C loop agree with the cursor. */
    ghost predicate Tracks(s: seq<Elt>, insize: nat, p: Elt?, psize: nat, q: Elt?, qsize: int) {
      && In(s) && end == Min(mid + insize, |s|)
      && psize == mid - i && qsize == insize - (j - mid)
      && (psize > 0 ==> p == s[i])
      && q == At(s, j)
    }
  }

  /** The nodes not yet taken still carry the links they had before the pass. */
  ghost predicate LinksLeft(s: seq<Elt>, c: Cursor)
    reads s`next
  {
    forall k :: 0 <= k < |s| && c.Left(k) ==> s[k].next == At(s, k + 1)
  }

  ghost predicate NoneLeftIn(s: seq<Elt>, c: Cursor, o: seq<Elt>) {
    forall k :: 0 <= k < |s| && c.Left(k) ==> s[k] !in o
  }

  lemma TakeP<X>(le: (X, X) -> bool, s: seq<X>, c: Cursor, o: seq<X>)
    requires c.In(s) && c.i < c.mid && (c.j == c.end || le(s[c.i], s[c.j]))
    ensures o + c.Rest(le, s) == o + [s[c.i]] + c.(i := c.i + 1).Rest(le, s)
  {
    assert s[c.i..c.mid][1..] == s[c.i + 1..c.mid];
    MergeHeadP(le, s[c.i..c.mid], s[c.j..c.end]);
    Reassociate(o, s[c.i], c.(i := c.i + 1).Rest(le, s));
  }

  lemma TakeQ<X>(le: (X, X) -> bool, s: seq<X>, c: Cursor, o: seq<X>)
    requires c.In(s) && c.j < c.end && (c.i == c.mid || !le(s[c.i], s[c.j]))
    ensures o + c.Rest(le, s) == o + [s[c.j]] + c.(j := c.j + 1).Rest(le, s)
  {
    assert s[c.j..c.end][1..] == s[c.j + 1..c.end];
    MergeHeadQ(le, s[c.i..c.mid], s[c.j..c.end]);
    Reassociate(o, s[c.j], c.(j := c.j + 1).Rest(le, s));
  }

  lemma MergeHeadP<X>(le: (X, X) -> bool, p: seq<X>, q: seq<X>)
    requires p != [] && (q == [] || le(p[0], q[0]))
    ensures Merge(le, p, q) == [p[0]] + Merge(le, p[1..], q)
  {
    assert p == [p[0]] + p[1..];
  }

  lemma MergeHeadQ<X>(le: (X, X) -> bool, p: seq<X>, q: seq<X>)
    requires q != [] && (p == [] || !le(p[0], q[0]))
    ensures Merge(le, p, q) == [q[0]] + Merge(le, p, q[1..])
  {
    assert q == [q[0]] + q[1..];
  }

  lemma Reassociate<X>(o: seq<X>, x: X, r: seq<X>)
    ensures o + ([x] + r) == o + [x] + r
  {
  }

  /** The four-way choice at the head of the merge loop. */
  method Choose(cmp: (Data, Data) -> int, insize: nat, p: Elt?, psize: nat, q: Elt?, qsize: nat,
                   ghost s: seq<Elt>, ghost c: Cursor, ghost o: seq<Elt>)
    returns (e: Elt, p': Elt?, psize': nat, q': Elt?, qsize': nat, ghost c': Cursor)
    requires c.Tracks(s, insize, p, psize, q, qsize) && LinksLeft(s, c)
    requires psize > 0 || (qsize > 0 && q != null)
    ensures c'.Tracks(s, insize, p', psize', q', qsize')
    ensures || (c' == c.(i := c.i + 1) && c.i < c.mid && e == s[c.i])
            || (c' == c.(j := c.j + 1) && c.j < c.end && e == s[c.j])
    ensures o + c.Rest(ByCmp(cmp), s) == o + [e] + c'.Rest(ByCmp(cmp), s)
  {
    p', psize', q', qsize' := p, psize, q, qsize;
    if psize == 0 {
      e, q', qsize' := q, q.next, qsize - 1;
      TakeQ(ByCmp(cmp), s, c, o);
      c' := c.(j := c.j + 1);
    } else if qsize == 0 || q == null {
      e, p', psize' := p, p.next, psize - 1;
      TakeP(ByCmp(cmp), s, c, o);
      c' := c.(i := c.i + 1);
    } else if cmp(p.data, q.data) <= 0 {
      e, p', psize' := p, p.next, psize - 1;
      TakeP(ByCmp(cmp), s, c, o);
      c' := c.(i := c.i + 1);
    } else {
      e, q', qsize' := q, q.next, qsize - 1;
      TakeQ(ByCmp(cmp), s, c, o);
      c' := c.(j := c.j + 1);
    }
  }

  /** Taking a node moves it from the nodes left to the output, and leaves it nowhere else. */
  lemma TakenLeaves(s: seq<Elt>, c: Cursor, c': Cursor, e: Elt, o: seq<Elt>)
    requires Distinct(s) && c.In(s) && NoneLeftIn(s, c, o)
    requires || (c' == c.(i := c.i + 1) && c.i < c.mid && e == s[c.i])
            || (c' == c.(j := c.j + 1) && c.j < c.end && e == s[c.j])
    ensures e !in o && NoneLeftIn(s, c', o + [e])
  {
  }

  /** p and everything after it are untouched; o has been built from what came before p. */
  ghost predicate PassState(s: seq<Elt>, b: nat, p: Elt?, o: seq<Elt>,
                               list: Elt?, tail: Elt?, kind: Kind, R: set<Elt>)
    reads s`next, o`next, o`prev
  {
    && b <= |s| && p == At(s, b)
    && Built(o, list, tail, kind)
    && (forall k :: b <= k < |s| ==> s[k] !in o && s[k].next == At(s, k + 1))
    && (forall x | x in s :: x in R) && (forall x | x in o :: x in R) && (tail == null || tail in o)
  }

  /** Everything the merge loop keeps: cursors, links not yet taken, and the output built. */
  ghost predicate MergeState(s: seq<Elt>, c: Cursor, insize: nat, p: Elt?, psize: nat, q: Elt?, qsize: nat,
                             o: seq<Elt>, list: Elt?, tail: Elt?, kind: Kind, R: set<Elt>)
    reads s`next, o`next, o`prev
  {
    && Distinct(s) && c.Tracks(s, insize, p, psize, q, qsize) && LinksLeft(s, c)
    && Built(o, list, tail, kind) && NoneLeftIn(s, c, o)
    && (forall x | x in s :: x in R) && (forall x | x in o :: x in R) && (tail == null || tail in o)
  }

  /** One turn of the merge loop. */
  method MergeStep(cmp: (Data, Data) -> int, kind: Kind, insize: nat, p0: Elt?, psize0: nat, q0: Elt?, qsize0: nat,
                   list0: Elt?, tail0: Elt?,
                   ghost s: seq<Elt>, ghost c0: Cursor, ghost o0: seq<Elt>, ghost R: set<Elt>)
    returns (p: Elt?, psize: nat, q: Elt?, qsize: nat, list: Elt?, tail: Elt?, ghost c: Cursor, ghost o: seq<Elt>)
    requires MergeState(s, c0, insize, p0, psize0, q0, qsize0, o0, list0, tail0, kind, R)
    requires psize0 > 0 || (qsize0 > 0 && q0 != null)
    modifies R`next, R`prev
    ensures MergeState(s, c, insize, p, psize, q, qsize, o, list, tail, kind, R)
    ensures c.mid == c0.mid && c.end == c0.end && c.In(s) && psize + qsize < psize0 + qsize0
    ensures o + c.Rest(ByCmp(cmp), s) == o0 + c0.Rest(ByCmp(cmp), s)
  {
    hide Merge, Distinct, Built;
    var e: Elt;
    e, p, psize, q, qsize, c := Choose(cmp, insize, p0, psize0, q0, qsize0, s, c0, o0);
    TakenLeaves(s, c0, c, e, o0);
    list, tail := Emit(list0, tail0, e, kind, o0);
    o := o0 + [e];
  }

  lemma MergeDone(s: seq<Elt>, c: Cursor, insize: nat, p: Elt?, psize: nat, q: Elt?, qsize: nat,
                  o: seq<Elt>, list: Elt?, tail: Elt?, kind: Kind, R: set<Elt>, le: (Elt, Elt) -> bool)
    requires MergeState(s, c, insize, p, psize, q, qsize, o, list, tail, kind, R)
    requires psize == 0 && (qsize == 0 || q == null)
    ensures c.In(s) && c.Rest(le, s) == [] && PassState(s, c.end, q, o, list, tail, kind, R)
  {
    assert c.i == c.mid && c.j == c.end;
  }

  /** The merge loop: p-run and q-run are relinked behind tail in merged order. */
  method MergeRuns(cmp: (Data, Data) -> int, kind: Kind, insize: nat,
                   p0: Elt?, psize0: nat, q0: Elt?, list0: Elt?, tail0: Elt?,
                   ghost s: seq<Elt>, ghost c0: Cursor, ghost o0: seq<Elt>, ghost R: set<Elt>)
    returns (list: Elt?, tail: Elt?, q: Elt?, ghost o: seq<Elt>)
    requires MergeState(s, c0, insize, p0, psize0, q0, insize, o0, list0, tail0, kind, R) && c0.In(s)
    modifies R`next, R`prev
    ensures o == o0 + c0.Rest(ByCmp(cmp), s)
    ensures PassState(s, c0.end, q, o, list, tail, kind, R)
  {
    hide MergeState, PassState, Merge;
    var p: Elt?, psize: nat, qsize: nat := p0, psize0, insize;
    ghost var c := c0;
    q, list, tail, o := q0, list0, tail0, o0;
    ghost var goal := o0 + c0.Rest(ByCmp(cmp), s);
    while psize > 0 || (qsize > 0 && q != null)
      invariant MergeState(s, c, insize, p, psize, q, qsize, o, list, tail, kind, R)
      invariant c.In(s) && c.mid == c0.mid && c.end == c0.end
      invariant o + c.Rest(ByCmp(cmp), s) == goal
      decreases psize + qsize
    {
      p, psize, q, qsize, list, tail, c, o := MergeStep(cmp, kind, insize, p, psize, q, qsize, list, tail, s, c, o, R);
    }
    MergeDone(s, c, insize, p, psize, q, qsize, o, list, tail, kind, R, ByCmp(cmp));
  }

  lemma PassEmpty<X>(le: (X, X) -> bool, s: seq<X>, k: nat)
    requires k > 0
    ensures Pass(le, s[|s|..], k) == []
  {
  }

  lemma PassUnfold<X>(le: (X, X) -> bool, s: seq<X>, k: nat, c: Cursor, o: seq<X>)
    requires k > 0 && c.i < |s| && c == Cursor(c.i, Min(c.i + k, |s|), Min(c.i + k, |s|), Min(c.i + 2 * k, |s|))
    ensures o + Pass(le, s[c.i..], k) == o + c.Rest(le, s) + Pass(le, s[c.end..], k)
  {
    PassSlices(s, k, c);
    assert Pass(le, s[c.i..], k) == c.Rest(le, s) + Pass(le, s[c.end..], k);
  }

  lemma PassSlices<X>(s: seq<X>, k: nat, c: Cursor)
    requires k > 0 && c.i < |s| && c == Cursor(c.i, Min(c.i + k, |s|), Min(c.i + k, |s|), Min(c.i + 2 * k, |s|))
    ensures var t := s[c.i..];
            Take(t, k) == s[c.i..c.mid] && Take(Drop(t, k), k) == s[c.j..c.end] && Drop(Drop(t, k), k) == s[c.end..]
  {
  }

  /** The merges still to come when a pass has reached index b. */
  ghost function MergesFrom<X>(s: seq<X>, b: nat, k: nat): nat
    requires k > 0 && b <= |s|
    decreases |s| - b
  {
    if b == |s| then 0 else 1 + MergesFrom(s, Min(b + 2 * k, |s|), k)
  }

  lemma {:induction false} MergesFromCounts<X>(s: seq<X>, b: nat, k: nat)
    requires k > 0 && b <= |s|
    ensures MergesFrom(s, b, k) == Merges(|s| - b, k)
    decreases |s| - b
  {
    if b < |s| { MergesFromCounts(s, Min(b + 2 * k, |s|), k); }
  }

  lemma PassStart(s: seq<Elt>, list0: Elt, kind: Kind, R: set<Elt>)
    requires s != [] && list0 == s[0] && NextFrom(s, 0) && forall x | x in s :: x in R
    ensures PassState(s, 0, list0, [], null, null, kind, R)
  {
  }

  /** The body of the pass loop: step over the p-run, then merge it with the q-run. */
  method MergeNext(cmp: (Data, Data) -> int, kind: Kind, insize: nat, p0: Elt, list0: Elt?, tail0: Elt?,
                      ghost s: seq<Elt>, ghost b0: nat, ghost o0: seq<Elt>, ghost R: set<Elt>)
    returns (p: Elt?, list: Elt?, tail: Elt?, ghost b: nat, ghost o: seq<Elt>)
    requires insize > 0 && Distinct(s) && PassState(s, b0, p0, o0, list0, tail0, kind, R)
    modifies R`next, R`prev
    ensures PassState(s, b, p, o, list, tail, kind, R)
    ensures b == Min(b0 + 2 * insize, |s|) > b0
    ensures o + Pass(ByCmp(cmp), s[b..], insize) == o0 + Pass(ByCmp(cmp), s[b0..], insize)
  {
    hide Pass, Merge, Distinct, Built;
    var q: Elt?, psize: nat := StepOver(p0, insize, s, b0);
    ghost var c := Cursor(b0, b0 + psize, b0 + psize, Min(b0 + psize + insize, |s|));
    PassUnfold(ByCmp(cmp), s, insize, c, o0);
    list, tail, p, o := MergeRuns(cmp, kind, insize, p0, psize, q, list0, tail0, s, c, o0, R);
    b := c.end;
  }

  /** The pass loop: merge runs of length insize two by two until the list is used up. */
  method MergeAll(cmp: (Data, Data) -> int, kind: Kind, list0: Elt, insize: nat,
                     ghost s: seq<Elt>, ghost R: set<Elt>)
    returns (list: Elt?, tail: Elt?, nmerges: nat, ghost o: seq<Elt>)
    requires insize > 0 && s != [] && list0 == s[0] && Distinct(s) && NextFrom(s, 0)
    requires forall x | x in s :: x in R
    modifies R`next, R`prev
    ensures o + Pass(ByCmp(cmp), s[|s|..], insize) == Pass(ByCmp(cmp), s, insize)
    ensures nmerges + MergesFrom(s, |s|, insize) == MergesFrom(s, 0, insize)
    ensures PassState(s, |s|, null, o, list, tail, kind, R)
  {
    hide Pass, Merge, Distinct;
    var p: Elt? := list0;
    list, tail, nmerges, o := null, null, 0, [];
    ghost var b := 0;
    ghost var left := MergesFrom(s, 0, insize);
    assert s[0..] == s;
    PassStart(s, list0, kind, R);
    while p != null
      invariant PassState(s, b, p, o, list, tail, kind, R)
      invariant o + Pass(ByCmp(cmp), s[b..], insize) == Pass(ByCmp(cmp), s, insize)
      invariant left == MergesFrom(s, b, insize) && nmerges + left == MergesFrom(s, 0, insize)
      decreases |s| - b
    {
      nmerges := nmerges + 1;
      p, list, tail, b, o := MergeNext(cmp, kind, insize, p, list, tail, s, b, o, R);
      left := left - 1;
    }
  }

  /** prev links, if there are any; in a DL list the first element points back to the tail. */
  ghost predicate PrevOf(o: seq<Elt>, kind: Kind, tail: Elt?)
    reads o`prev
  {
    kind.Single? || forall k :: 0 <= k < |o| ==> o[k].prev == if k == 0 && kind.Circular? then tail else At(o, k - 1)
  }

  /** A whole null-terminated list. */
  ghost predicate Linked(o: seq<Elt>, list: Elt?, R: set<Elt>)
    reads o`next
  {
    && o != [] && Distinct(o) && list == o[0] && NextFrom(o, 0)
    && forall x | x in o :: x in R
  }

  /** End the list built by a pass with null; in a DL list the head's prev becomes the tail. */
  method Close(list: Elt?, tail: Elt?, kind: Kind, ghost o: seq<Elt>)
    requires o != [] && Built(o, list, tail, kind)
    modifies tail`next, list`prev
    ensures list != null && tail != null && Distinct(o) && list == o[0] && tail == o[|o| - 1] && NextFrom(o, 0)
    ensures PrevOf(o, kind, tail)
  {
    tail.next := null;
    if kind.Circular? {
      list.prev := tail;
    }
  }

  /** One full pass: merge, end the list with null, and set the head's prev in a DL list. */
  method MergePass(cmp: (Data, Data) -> int, kind: Kind, list0: Elt, insize: nat,
                      ghost s: seq<Elt>, ghost R: set<Elt>)
    returns (list: Elt, tail: Elt, nmerges: nat, ghost o: seq<Elt>)
    requires insize > 0 && s != [] && list0 == s[0] && Distinct(s) && NextFrom(s, 0)
    requires forall x | x in s :: x in R
    modifies R`next, R`prev
    ensures o == Pass(ByCmp(cmp), s, insize) && nmerges == Merges(|s|, insize)
    ensures Linked(o, list, R) && tail == o[|o| - 1]
    ensures PrevOf(o, kind, tail)
  {
    hide Pass, Distinct;
    var l: Elt?, t: Elt?;
    l, t, nmerges, o := MergeAll(cmp, kind, list0, insize, s, R);
    PassEmpty(ByCmp(cmp), s, insize);
    MergesFromCounts(s, 0, insize);
    Close(l, t, kind, o);
    list, tail := l, t;
  }

  /** The outer loop: passes of doubling run length until a pass needs at most one merge. */
  method SortList(cmp: (Data, Data) -> int, kind: Kind, list0: Elt,
                     ghost s: seq<Elt>, ghost R: set<Elt>)
    returns (list: Elt, tail: Elt?, ghost o: seq<Elt>)
    requires s != [] && list0 == s[0] && Distinct(s) && NextFrom(s, 0)
    requires forall x | x in s :: x in R
    modifies R`next, R`prev
    ensures o == Sort(ByCmp(cmp), s, 1)
    ensures Linked(o, list, R) && tail == o[|o| - 1]
    ensures PrevOf(o, kind, tail)
  {
    hide Sort, Pass, Merges, Distinct;
    var insize, looping := 1, true;
    ghost var goal := Sort(ByCmp(cmp), s, 1);
    ghost var measure := Merges(|s|, insize) + 1;
    list, tail, o := list0, null, s;
    while looping
      invariant insize > 0 && Linked(o, list, R) && (looping || tail == o[|o| - 1])
      invariant if looping then Sort(ByCmp(cmp), o, insize) == goal else o == goal
      invariant looping ==> measure == Merges(|o|, insize) + 1
      invariant !looping ==> PrevOf(o, kind, tail)
      decreases looping, measure
    {
      var nmerges;
      SortUnfold(ByCmp(cmp), o, insize);
      list, tail, nmerges, o := MergePass(cmp, kind, list, insize, o, R);
      if nmerges <= 1 {
        looping := false;
      }
      insize := insize * 2;
      measure := Merges(|o|, insize) + 1;
    }
  }

  lemma SortUnfold<X>(le: (X, X) -> bool, s: seq<X>, k: nat)
    requires k > 0
    ensures Merges(|s|, k) <= 1 ==> Sort(le, s, k) == Pass(le, s, k)
    ensures Merges(|s|, k) > 1 ==> Sort(le, s, k) == Sort(le, Pass(le, s, k), 2 * k)
    ensures Merges(|s|, k) > 1 ==> Merges(|s|, 2 * k) < Merges(|s|, k)
  {
    if Merges(|s|, k) > 1 { MergesFall(|s|, k); }
  }
}
