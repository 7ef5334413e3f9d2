/**
 The bottom-up merge sort that utlist.h and uthash.h run on raw pointers, stated on
 sequences. `le(a, b)` stands for `cmp(a, b) <= 0`, the only question the C code asks.
 The main theorem says that the passes end in THE stable sorted permutation: strictly
 increasing for the order "by le, ties broken by the position in the input".
 */
module MergeSort {
  import opened Sequences

  ghost function IndexOf<X>(s: seq<X>, x: X): (i: nat)
    requires x in s
    ensures i < |s| && s[i] == x
  {
    var i :| 0 <= i < |s| && s[i] == x; i
  }

  ghost predicate Distinct<X>(s: seq<X>) {
    forall i, j :: 0 <= i < j < |s| ==> s[i] != s[j]
  }

  lemma DistinctAppend<X>(s: seq<X>, x: X)
    requires Distinct(s) && x !in s
    ensures Distinct(s + [x])
  {
  }

  lemma DistinctConcat<X>(s: seq<X>, t: seq<X>)
    requires Distinct(s) && Distinct(t) && forall x | x in t :: x !in s
    ensures Distinct(s + t)
  {
    var u := s + t;
    forall i, j | 0 <= i < j < |u| ensures u[i] != u[j] {
      if i < |s| <= j { assert u[j] == t[j - |s|] && t[j - |s|] in t; }
      else if i >= |s| { assert u[j] == t[j - |s|] && u[i] == t[i - |s|]; }
    }
  }

  lemma DistinctSlice<X>(s: seq<X>, lo: nat, hi: nat)
    requires Distinct(s) && lo <= hi <= |s|
    ensures Distinct(s[lo..hi])
  {
  }

  /** le is total and transitive on the elements of s. */
  ghost predicate TotalPreorderOn<X>(le: (X, X) -> bool, s: seq<X>) {
    && (forall a, b | a in s && b in s :: le(a, b) || le(b, a))
    && (forall a, b, c | a in s && b in s && c in s :: le(a, b) && le(b, c) ==> le(a, c))
  }

  /** a must come before b in a stable sort of s0. */
  ghost predicate Before<X>(le: (X, X) -> bool, s0: seq<X>, a: X, b: X)
    requires a in s0 && b in s0
  {
    le(a, b) && (le(b, a) ==> IndexOf(s0, a) < IndexOf(s0, b))
  }

  ghost predicate Within<X>(s0: seq<X>, s: seq<X>) {
    forall x | x in s :: x in s0
  }

  ghost predicate Ranked<X>(le: (X, X) -> bool, s0: seq<X>, s: seq<X>)
    requires Within(s0, s)
  {
    forall i, j :: 0 <= i < j < |s| ==> Before(le, s0, s[i], s[j])
  }

  /** r is the stable sort of s. */
  ghost predicate StableSortOf<X>(le: (X, X) -> bool, s: seq<X>, r: seq<X>) {
    && multiset(r) == multiset(s)
    && Within(s, r)
    && Ranked(le, s, r)
  }

  function Take<X>(s: seq<X>, k: nat): seq<X> { s[..Min(k, |s|)] }

  function Drop<X>(s: seq<X>, k: nat): seq<X> { s[Min(k, |s|)..] }

  /** One merge of a p-run with the q-run that follows it; p wins ties. */
  function Merge<X>(le: (X, X) -> bool, p: seq<X>, q: seq<X>): (r: seq<X>)
    ensures |r| == |p| + |q|
  {
    if p == [] then q
    else if q == [] then p
    else if le(p[0], q[0]) then [p[0]] + Merge(le, p[1..], q)
    else [q[0]] + Merge(le, p, q[1..])
  }

  /** One pass: merge the runs of length k two by two. */
  function Pass<X>(le: (X, X) -> bool, s: seq<X>, k: nat): (r: seq<X>)
    requires k > 0
    ensures |r| == |s|
    decreases |s|
  {
    if s == [] then []
    else Merge(le, Take(s, k), Take(Drop(s, k), k)) + Pass(le, Drop(Drop(s, k), k), k)
  }

  /** How many merges a pass over n elements performs (`nmerges` in the source). */
  function Merges(n: nat, k: nat): nat
    requires k > 0
  {
    if n <= 2 * k then (if n == 0 then 0 else 1) else 1 + Merges(n - 2 * k, k)
  }

  /** The outer loop: passes with doubling run length until one merge covers the list. */
  function Sort<X>(le: (X, X) -> bool, s: seq<X>, k: nat): seq<X>
    requires k > 0
    decreases |s| - k
  {
    if Merges(|s|, k) <= 1 then Pass(le, s, k) else MergesBound(|s|, k); Sort(le, Pass(le, s, k), 2 * k)
  }

  lemma {:induction false} MergesBound(n: nat, k: nat)
    requires k > 0
    ensures Merges(n, k) <= 1 <==> n <= 2 * k
    decreases n
  {
    if n > 2 * k { MergesBound(n - 2 * k, k); }
  }

  /** Doubling the run length halves the number of merges, rounding up. */
  lemma {:induction false} MergesHalve(n: nat, k: nat)
    requires k > 0
    ensures Merges(n, 2 * k) == (Merges(n, k) + 1) / 2
    decreases n
  {
    if n > 4 * k {
      MergesHalve(n - 4 * k, k);
    } else if n > 2 * k {
      MergesBound(n - 2 * k, k);
    }
  }

  /** ... so the count strictly falls on every pass that does not end the sort. */
  lemma MergesFall(n: nat, k: nat)
    requires k > 0 && Merges(n, k) > 1
    ensures Merges(n, 2 * k) < Merges(n, k)
  {
    MergesHalve(n, k);
  }

  lemma {:induction false} MergePermutes<X>(le: (X, X) -> bool, p: seq<X>, q: seq<X>)
    ensures multiset(Merge(le, p, q)) == multiset(p) + multiset(q)
    decreases |p| + |q|
  {
    if p == [] || q == [] {
    } else if le(p[0], q[0]) {
      MergePermutes(le, p[1..], q);
      MultisetTail(p);
    } else {
      MergePermutes(le, p, q[1..]);
      MultisetTail(q);
    }
  }

  lemma MergeMembers<X>(le: (X, X) -> bool, p: seq<X>, q: seq<X>)
    ensures forall x :: x in Merge(le, p, q) <==> x in p || x in q
  {
    MergePermutes(le, p, q);
    forall x ensures x in Merge(le, p, q) <==> x in p || x in q {
      assert x in Merge(le, p, q) <==> x in multiset(Merge(le, p, q));
    }
  }

  /** Everything in p sits before everything in q in the input. */
  ghost predicate Precedes<X>(s0: seq<X>, p: seq<X>, q: seq<X>)
    requires Within(s0, p) && Within(s0, q)
  {
    forall a, b | a in p && b in q :: IndexOf(s0, a) < IndexOf(s0, b)
  }

  lemma RankedCons<X>(le: (X, X) -> bool, s0: seq<X>, x: X, r: seq<X>)
    requires x in s0 && Within(s0, r) && Ranked(le, s0, r)
    requires forall y | y in r :: Before(le, s0, x, y)
    ensures Within(s0, [x] + r) && Ranked(le, s0, [x] + r)
  {
  }

  lemma RankedTail<X>(le: (X, X) -> bool, s0: seq<X>, s: seq<X>)
    requires s != [] && Within(s0, s) && Ranked(le, s0, s)
    ensures Within(s0, s[1..]) && Ranked(le, s0, s[1..])
    ensures forall y | y in s[1..] :: Before(le, s0, s[0], y)
  {
  }

  lemma {:induction false} MergeRanks<X>(le: (X, X) -> bool, s0: seq<X>, p: seq<X>, q: seq<X>)
    requires TotalPreorderOn(le, s0)
    requires Within(s0, p) && Within(s0, q)
    requires Ranked(le, s0, p) && Ranked(le, s0, q) && Precedes(s0, p, q)
    ensures Within(s0, Merge(le, p, q)) && Ranked(le, s0, Merge(le, p, q))
    decreases |p| + |q|
  {
    MergeMembers(le, p, q);
    if p == [] || q == [] {
    } else if le(p[0], q[0]) {
      RankedTail(le, s0, p);
      RankedTail(le, s0, q);
      MergeRanks(le, s0, p[1..], q);
      MergeMembers(le, p[1..], q);
      RankedCons(le, s0, p[0], Merge(le, p[1..], q));
    } else {
      RankedTail(le, s0, p);
      RankedTail(le, s0, q);
      MergeRanks(le, s0, p, q[1..]);
      MergeMembers(le, p, q[1..]);
      RankedCons(le, s0, q[0], Merge(le, p, q[1..]));
    }
  }

  /**
   What a pass relies on: s is cut into runs of length k (the last may be shorter), each
   ranked, and the run at offset o holds only elements that stood at o .. o+k in s0.
   */
  ghost predicate Runs<X>(le: (X, X) -> bool, s0: seq<X>, s: seq<X>, off: nat, k: nat)
    requires k > 0
    decreases |s|
  {
    s == [] ||
    (&& Within(s0, Take(s, k))
     && Ranked(le, s0, Take(s, k))
     && (forall x | x in Take(s, k) :: off <= IndexOf(s0, x) < off + k)
     && Runs(le, s0, Drop(s, k), off + k, k))
  }

  lemma TakeDropConcat<X>(m: seq<X>, r: seq<X>, k: nat)
    requires |m| <= k && (|m| < k ==> r == [])
    ensures Take(m + r, k) == m && Drop(m + r, k) == r
  {
  }

  lemma {:induction false} PassKeepsRuns<X>(le: (X, X) -> bool, s0: seq<X>, s: seq<X>, off: nat, k: nat)
    requires k > 0 && TotalPreorderOn(le, s0) && Runs(le, s0, s, off, k)
    ensures Runs(le, s0, Pass(le, s, k), off, 2 * k)
    decreases |s|
  {
    hide Merge, Ranked, TotalPreorderOn, Precedes;
    if s != [] {
      var p, q, rest := Take(s, k), Take(Drop(s, k), k), Drop(Drop(s, k), k);
      assert Runs(le, s0, Drop(s, k), off + k, k);
      MergeRanks(le, s0, p, q);
      MergeMembers(le, p, q);
      PassKeepsRuns(le, s0, rest, off + 2 * k, k);
      TakeDropConcat(Merge(le, p, q), Pass(le, rest, k), 2 * k);
    }
  }

  lemma {:induction false} PassPermutes<X>(le: (X, X) -> bool, s: seq<X>, k: nat)
    requires k > 0
    ensures multiset(Pass(le, s, k)) == multiset(s)
    decreases |s|
  {
    if s != [] {
      var p, q, rest := Take(s, k), Take(Drop(s, k), k), Drop(Drop(s, k), k);
      MergePermutes(le, p, q);
      PassPermutes(le, rest, k);
      PermuteParts(p, q, rest, Merge(le, p, q), Pass(le, rest, k));
      TakeDrop(s, k);
      TakeDrop(Drop(s, k), k);
    }
  }

  lemma TakeDrop<X>(s: seq<X>, k: nat)
    ensures Take(s, k) + Drop(s, k) == s
  {
  }

  lemma PermuteParts<X>(p: seq<X>, q: seq<X>, rest: seq<X>, m: seq<X>, r: seq<X>)
    requires multiset(m) == multiset(p) + multiset(q) && multiset(r) == multiset(rest)
    ensures multiset(m + r) == multiset(p + (q + rest))
  {
    assert multiset(p + (q + rest)) == multiset(p) + multiset(q + rest);
    assert multiset(q + rest) == multiset(q) + multiset(rest);
  }

  lemma IndexOfAt<X>(s: seq<X>, i: nat)
    requires Distinct(s) && i < |s|
    ensures IndexOf(s, s[i]) == i
  {
  }

  lemma {:induction false} SingletonRuns<X>(le: (X, X) -> bool, s0: seq<X>, off: nat)
    requires Distinct(s0) && off <= |s0|
    ensures Runs(le, s0, s0[off..], off, 1)
    decreases |s0| - off
  {
    if off < |s0| {
      SingletonRuns(le, s0, off + 1);
      IndexOfAt(s0, off);
      assert Take(s0[off..], 1) == [s0[off]];
      assert Drop(s0[off..], 1) == s0[off + 1..];
    }
  }

  lemma {:induction false} SortFromRuns<X>(le: (X, X) -> bool, s0: seq<X>, s: seq<X>, k: nat)
    requires k > 0 && TotalPreorderOn(le, s0) && Runs(le, s0, s, 0, k)
    requires multiset(s) == multiset(s0)
    ensures StableSortOf(le, s0, Sort(le, s, k))
    decreases |s| - k
  {
    var r := Pass(le, s, k);
    PassKeepsRuns(le, s0, s, 0, k);
    PassPermutes(le, s, k);
    MergesBound(|s|, k);
    if |s| <= 2 * k {
      assert Take(r, 2 * k) == r;
    } else {
      SortFromRuns(le, s0, r, 2 * k);
    }
  }

  /** The passes starting at run length 1 compute the stable sort of any list. */
  lemma SortIsStable<X>(le: (X, X) -> bool, s: seq<X>)
    requires Distinct(s) && TotalPreorderOn(le, s)
    ensures StableSortOf(le, s, Sort(le, s, 1))
  {
    SingletonRuns(le, s, 0);
    assert s[0..] == s;
    SortFromRuns(le, s, s, 1);
  }

  lemma PermutationKeepsDistinct<X>(s: seq<X>, r: seq<X>)
    requires Distinct(s) && multiset(r) == multiset(s)
    ensures |r| == |s|
    ensures Distinct(r)
    ensures forall x :: x in r <==> x in s
  {
    assert |multiset(r)| == |r| && |multiset(s)| == |s|;
    forall x ensures x in r <==> x in s {
      assert x in r <==> x in multiset(r);
      assert x in s <==> x in multiset(s);
    }
    forall i, j | 0 <= i < j < |r| ensures r[i] != r[j] {
      if r[i] == r[j] {
        var x := r[i];
        TwiceInMultiset(r, i, j);
        OnceInMultiset(s, x);
      }
    }
  }

  lemma TwiceInMultiset<X>(r: seq<X>, i: nat, j: nat)
    requires i < j < |r| && r[i] == r[j]
    ensures multiset(r)[r[i]] >= 2
  {
    assert r == r[..j] + [r[j]] + r[j + 1..];
    assert r[i] in r[..j] by { assert r[..j][i] == r[i]; }
    assert multiset(r[..j])[r[i]] >= 1;
  }

  lemma {:induction false} OnceInMultiset<X>(s: seq<X>, x: X)
    requires Distinct(s)
    ensures multiset(s)[x] <= 1
  {
    if s != [] {
      var n := |s| - 1;
      DistinctSlice(s, 0, n);
      OnceInMultiset(s[..n], x);
      assert s == s[..n] + [s[n]];
      if s[n] == x {
        assert x !in s[..n];
        assert multiset(s[..n])[x] == 0;
      }
    }
  }

  /** There is only one stable sort, so `StableSortOf` pins the result down. */
  lemma {:induction false} StableSortIsUnique<X>(le: (X, X) -> bool, s: seq<X>, r: seq<X>, t: seq<X>)
    requires StableSortOf(le, s, r) && StableSortOf(le, s, t)
    ensures r == t
  {
    RankedIsUnique(le, s, r, t);
  }

  lemma SameFirst<X>(le: (X, X) -> bool, s0: seq<X>, r: seq<X>, t: seq<X>)
    requires Within(s0, r) && Within(s0, t) && Ranked(le, s0, r) && Ranked(le, s0, t)
    requires r != [] && t != [] && r[0] in t && t[0] in r
    ensures r[0] == t[0]
  {
    var i :| 0 <= i < |t| && t[i] == r[0];
    var j :| 0 <= j < |r| && r[j] == t[0];
  }

  lemma MultisetTail<X>(s: seq<X>)
    requires s != []
    ensures multiset(s[1..]) == multiset(s) - multiset{s[0]}
  {
    assert s == [s[0]] + s[1..];
  }

  lemma {:induction false} RankedIsUnique<X>(le: (X, X) -> bool, s0: seq<X>, r: seq<X>, t: seq<X>)
    requires Within(s0, r) && Within(s0, t) && Ranked(le, s0, r) && Ranked(le, s0, t)
    requires multiset(r) == multiset(t)
    ensures r == t
  {
    assert |multiset(r)| == |r| && |multiset(t)| == |t|;
    if r != [] {
      assert r[0] in multiset(t) && t[0] in multiset(r);
      SameFirst(le, s0, r, t);
      MultisetTail(r);
      MultisetTail(t);
      RankedTail(le, s0, r);
      RankedTail(le, s0, t);
      RankedIsUnique(le, s0, r[1..], t[1..]);
      assert r == [r[0]] + r[1..] && t == [t[0]] + t[1..];
    }
  }
}
