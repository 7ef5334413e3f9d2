/**
 The doubly linked lists of utlist.h: every element's prev points to the element before
 it, the head's prev to the tail, and the tail's next is null. The macros update the
 variable `head`; the methods below take it and return its new value, and each is
 specified by the sequence of elements that the list holds.
 */
module Utlist {
  import opened Sequences
  import opened MergeSort
  import opened Elements
  import PointerSort

  /** Neighbours in s point at each other; the two ends are left open. */
  ghost predicate Inner(s: seq<Elt>)
    reads s`prev, s`next
  {
    && (forall k {:trigger s[k].next} :: 0 <= k < |s| - 1 ==> s[k].next == s[k + 1])
    && (forall k {:trigger s[k].prev} :: 0 < k < |s| ==> s[k].prev == s[k - 1])
  }

  ghost predicate DlList(s: seq<Elt>, head: Elt?)
    reads s`prev, s`next
  {
    && Distinct(s) && head == At(s, 0) && Inner(s)
    && (s != [] ==> s[|s| - 1].next == null && s[0].prev == s[|s| - 1])
  }

  /** The elements of s that p keeps, in order. */
  function Kept<X>(p: X -> bool, s: seq<X>): seq<X> {
    if s == [] then [] else (if p(s[0]) then [s[0]] else []) + Kept(p, s[1..])
  }

  lemma DistinctWithout<X>(s: seq<X>, k: nat)
    requires Distinct(s) && k < |s|
    ensures Distinct(Without(s, k)) && s[k] !in Without(s, k)
  {
  }

  lemma InnerConcat(s: seq<Elt>, t: seq<Elt>)
    requires Inner(s) && Inner(t)
    requires s != [] && t != [] ==> s[|s| - 1].next == t[0] && t[0].prev == s[|s| - 1]
    ensures Inner(s + t)
  {
    var u := s + t;
    forall k | 0 <= k < |u| - 1 ensures u[k].next == u[k + 1] {
      if k + 1 < |s| { assert u[k] == s[k]; } else if k >= |s| { assert u[k] == t[k - |s|]; }
    }
    forall k | 0 < k < |u| ensures u[k].prev == u[k - 1] {
      if k < |s| { assert u[k] == s[k]; } else if k > |s| { assert u[k] == t[k - |s|]; }
    }
  }

  /** DL_APPEND2 */
  method Append(head: Elt?, add: Elt, ghost s: seq<Elt>) returns (head': Elt)
    requires DlList(s, head) && add !in s
    modifies add`prev, add`next, s`prev, s`next
    ensures DlList(s + [add], head')
  {
    DistinctAppend(s, add);
    hide Distinct;
    if head != null {
      add.prev := head.prev;
      head.prev.next := add;
      head.prev := add;
      add.next := null;
      head' := head;
      assert Inner(s);
      InnerConcat(s, [add]);
    } else {
      head' := add;
      head'.prev := head';
      head'.next := null;
      assert s + [add] == [add];
    }
  }

  /** DL_DELETE2 */
  method Delete(head: Elt?, del: Elt, ghost s: seq<Elt>, ghost k: nat, ghost R: set<Elt>) returns (head': Elt?)
    requires DlList(s, head) && k < |s| && s[k] == del && forall x | x in s :: x in R
    modifies R`prev, R`next
    ensures DlList(Without(s, k), head')
    ensures del.next == old(del.next)
  {
    DistinctWithout(s, k);
    Neighbours(s, head, k);
    head' := head;
    if del.prev == del {
      head' := null;
    } else if del == head {
      del.next.prev := del.prev;
      head' := del.next;
    } else {
      del.prev.next := del.next;
      if del.next != null {
        del.next.prev := del.prev;
      } else {
        head.prev := del.prev;
      }
    }
    DeleteLinks(s, k, head');
  }

  lemma Neighbours(s: seq<Elt>, head: Elt?, k: nat)
    requires DlList(s, head) && k < |s|
    ensures s[k].next == At(s, k + 1)
    ensures s[k].prev == s[if k == 0 then |s| - 1 else k - 1]
    ensures s[k].prev == s[k] <==> |s| == 1
  {
    assert s[if k == 0 then |s| - 1 else k - 1] == s[k] <==> |s| == 1;
  }

  /** The state DL_DELETE2 leaves behind, read off the old sequence, is the shorter list. */
  lemma DeleteLinks(s: seq<Elt>, k: nat, head': Elt?)
    requires k < |s| && Distinct(Without(s, k))
    requires forall i :: 0 <= i < |s| - 1 && i != k && i + 1 != k ==> s[i].next == s[i + 1]
    requires forall i :: 0 < i < |s| && i != k && i != k + 1 ==> s[i].prev == s[i - 1]
    requires 0 < k ==>
      s[k - 1].next == At(s, k + 1) && head' == s[0] && s[0].prev == s[if k + 1 == |s| then k - 1 else |s| - 1]
    requires 0 < k < |s| - 1 ==> s[k + 1].prev == s[k - 1]
    requires k == 0 ==> head' == At(s, 1) && (|s| > 1 ==> s[1].prev == s[|s| - 1])
    requires k + 1 < |s| ==> s[|s| - 1].next == null
    ensures DlList(Without(s, k), head')
  {
    var a, b := s[..k], s[k + 1..];
    assert Inner(a);
    assert Inner(b) by {
      assert forall i :: 0 <= i < |b| ==> b[i] == s[i + k + 1];
    }
    InnerConcat(a, b);
  }

  /** DL_CONCAT2 */
  method Concat(head1: Elt?, head2: Elt?, ghost s: seq<Elt>, ghost t: seq<Elt>) returns (head: Elt?)
    requires DlList(s, head1) && DlList(t, head2) && forall x | x in t :: x !in s
    modifies s`prev, s`next, t`prev
    ensures DlList(s + t, head)
  {
    DistinctConcat(s, t);
    assert t != [] ==> t[|t| - 1] in t;
    head := head1;
    if head2 != null {
      if head1 != null {
        var tmp := head2.prev;
        head2.prev := head1.prev;
        head1.prev.next := head2;
        head1.prev := tmp;
        assert Inner(s) && Inner(t);
        InnerConcat(s, t);
        assert (s + t)[|s + t| - 1] == t[|t| - 1];
      } else {
        head := head2;
        assert s + t == t;
      }
    } else {
      assert s + t == s;
    }
  }

  /** DL_SORT2: the same nodes, relinked into the stable sort of the list. */
  method Sort(head: Elt?, cmp: (Data, Data) -> int, ghost s: seq<Elt>) returns (head': Elt?, ghost o: seq<Elt>)
    requires DlList(s, head) && TotalPreorderOn(ByCmp(cmp), s)
    modifies s`prev, s`next
    ensures StableSortOf(ByCmp(cmp), s, o) && DlList(o, head')
  {
    SortIsStable(ByCmp(cmp), s);
    DlNext(s, head);
    hide StableSortOf, MergeSort.Sort, Distinct, DlList, PointerSort.PrevOf;
    o, head' := s, head;
    if head != null {
      ghost var R := set x | x in s;
      var tail;
      head', tail, o := PointerSort.SortList(cmp, PointerSort.Circular, head, s, R);
      SortedIsDl(o, head', tail, R);
    } else {
      SortNothing(ByCmp(cmp), s);
    }
  }

  /** A singly linked list: its elements' prev pointers mean nothing. */
  ghost predicate LlList(s: seq<Elt>, head: Elt?)
    reads s`next
  {
    Distinct(s) && head == At(s, 0) && NextFrom(s, 0)
  }

  /** LL_SORT2 */
  method SortSingle(head: Elt?, cmp: (Data, Data) -> int, ghost s: seq<Elt>) returns (head': Elt?, ghost o: seq<Elt>)
    requires LlList(s, head) && TotalPreorderOn(ByCmp(cmp), s)
    modifies s`prev, s`next
    ensures StableSortOf(ByCmp(cmp), s, o) && LlList(o, head')
  {
    SortIsStable(ByCmp(cmp), s);
    hide StableSortOf, MergeSort.Sort, Distinct;
    o, head' := s, head;
    if head != null {
      var tail;
      head', tail, o := PointerSort.SortList(cmp, PointerSort.Single, head, s, set x | x in s);
    } else {
      SortNothing(ByCmp(cmp), s);
    }
  }

  lemma DlNext(s: seq<Elt>, head: Elt?)
    requires DlList(s, head)
    ensures Distinct(s) && head == At(s, 0) && NextFrom(s, 0)
  {
    forall k | 0 <= k < |s| ensures s[k].next == At(s, k + 1) { Neighbours(s, head, k); }
  }

  lemma SortedIsDl(o: seq<Elt>, head: Elt?, tail: Elt?, R: set<Elt>)
    requires PointerSort.Linked(o, head, R) && tail == o[|o| - 1] && PointerSort.PrevOf(o, PointerSort.Circular, tail)
    ensures DlList(o, head)
  {
  }

  lemma SortNothing<X>(le: (X, X) -> bool, s: seq<X>)
    requires s == []
    ensures MergeSort.Sort(le, s, 1) == []
  {
  }

  /** Where a safe traversal stands: el is s[i], and of s[..i] only `done` is still linked. */
  ghost predicate Walking(s: seq<Elt>, i: nat, el: Elt?, done: seq<Elt>, head: Elt?)
    reads s`prev, s`next, done`prev, done`next
  {
    i <= |s| && el == At(s, i) && DlList(done + s[i..], head) && forall x | x in done :: x in s
  }

  /** One turn of the traversal; `tmp` is read before the element may be unlinked. */
  method VisitOne(el: Elt, head: Elt?, keep: bool, ghost s: seq<Elt>, ghost i: nat, ghost done: seq<Elt>,
                  ghost R: set<Elt>)
    returns (el': Elt?, head': Elt?, ghost done': seq<Elt>)
    requires i < |s| && Walking(s, i, el, done, head) && forall x | x in s :: x in R
    modifies R`prev, R`next
    ensures Walking(s, i + 1, el', done', head') && el' == At(s, i + 1)
    ensures done' == if keep then done + [s[i]] else done
  {
    hide DlList, Without, Walking;
    ghost var l, k := done + s[i..], |done|;
    WalkOpen(s, i, el, done, head);
    WalkSlices(s, i, done);
    Neighbours(l, head, k);
    var tmp := el.next;
    head', done' := head, done;
    if keep {
      done' := done + [el];
    } else {
      head' := Delete(head, el, l, k, R);
    }
    el' := tmp;
    WalkClose(s, i + 1, el', done', head');
  }

  lemma WalkOpen(s: seq<Elt>, i: nat, el: Elt?, done: seq<Elt>, head: Elt?)
    requires Walking(s, i, el, done, head)
    ensures i <= |s| && el == At(s, i) && DlList(done + s[i..], head) && forall x | x in done :: x in s
  {
  }

  lemma WalkClose(s: seq<Elt>, i: nat, el: Elt?, done: seq<Elt>, head: Elt?)
    requires i <= |s| && el == At(s, i) && DlList(done + s[i..], head) && forall x | x in done :: x in s
    ensures Walking(s, i, el, done, head)
  {
  }

  lemma WalkSlices(s: seq<Elt>, i: nat, done: seq<Elt>)
    requires i < |s|
    ensures var l := done + s[i..]; var k := |done|;
            && k < |l| && l[k] == s[i] && At(l, k + 1) == At(s, i + 1)
            && Without(l, k) == done + s[i + 1..] && l == done + [s[i]] + s[i + 1..]
            && (forall x | x in l :: x in done || x in s)
  {
    assert s[i..] == [s[i]] + s[i + 1..];
  }

  lemma KeptStep<X>(p: X -> bool, s: seq<X>, i: nat, done: seq<X>)
    requires i < |s|
    ensures done + Kept(p, s[i..]) == (if p(s[i]) then done + [s[i]] else done) + Kept(p, s[i + 1..])
  {
    assert s[i..][1..] == s[i + 1..];
  }

  /**
   DL_FOREACH_SAFE2 around DL_DELETE2, as message__cleanup_all and message__reconnect_reset
   use it: every element is visited once, in order, and those p rejects are taken out.
   */
  method KeepOnly(head: Elt?, p: Elt -> bool, ghost s: seq<Elt>) returns (head': Elt?, visited: seq<Elt>)
    requires DlList(s, head)
    modifies s`prev, s`next
    ensures DlList(Kept(p, s), head') && visited == s
  {
    hide DlList, Kept, Walking;
    visited, head' := [], head;
    var el: Elt? := head;
    ghost var done: seq<Elt> := [];
    ghost var goal := Kept(p, s);
    ghost var R := set x | x in s;
    WalkStart(s, head);
    while el != null
      invariant |visited| <= |s| && el == At(s, |visited|) && visited == s[..|visited|]
      invariant Walking(s, |visited|, el, done, head')
      invariant done + Kept(p, s[|visited|..]) == goal
      decreases |s| - |visited|
    {
      KeptStep(p, s, |visited|, done);
      ghost var i := |visited|;
      visited := visited + [el];
      el, head', done := VisitOne(el, head', p(el), s, i, done, R);
    }
    WalkEnd(p, s, |visited|, done, head');
  }

  lemma WalkStart(s: seq<Elt>, head: Elt?)
    requires DlList(s, head)
    ensures s[0..] == s && Walking(s, 0, head, [], head)
  {
    assert [] + s == s;
  }

  lemma WalkEnd(p: Elt -> bool, s: seq<Elt>, i: nat, done: seq<Elt>, head: Elt?)
    requires Walking(s, i, null, done, head)
    ensures i == |s| && DlList(done + Kept(p, s[i..]), head)
  {
    assert Kept(p, s[|s|..]) == [] && s[|s|..] == [];
  }
}
