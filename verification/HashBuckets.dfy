/**
 The bucket half of a uthash table: every element sits on exactly one chain, the one its
 hash value selects, and HASH_EXPAND_BUCKETS doubles the number of chains in place.
 */
module HashBuckets {
  import opened Sequences
  import opened MergeSort
  import opened Elements
  import opened Utlist

  const CAPACITY_THRESH: nat := 10

  datatype Bucket = Bucket(head: Elt?, count: nat, expandMult: nat)

  /** HASH_TO_BKT: the bucket count is a power of two, so masking is the remainder. */
  function ToBkt(hash: Key -> nat, key: Key, n: nat): (b: nat)
    requires n > 0
    ensures b < n
  {
    hash(key) % n
  }

  /** The chain c hangs off bucket b, as HASH_FSCK checks it. */
  ghost predicate ChainOk(b: Bucket, c: seq<Elt>)
    reads c`hhNext, c`hhPrev
  {
    b.head == At(c, 0) && b.count == |c| && HhLinks(c)
  }

  /** chains[b] holds, once each, elements of R that hash to bucket b. */
  ghost predicate OnChain(hash: Key -> nat, chains: seq<seq<Elt>>, b: nat, R: set<Elt>)
    requires b < |chains|
  {
    Distinct(chains[b]) && forall x | x in chains[b] :: x in R && ToBkt(hash, x.key, |chains|) == b
  }

  /** Every element of R is on exactly one chain, the one its hash value selects. */
  ghost predicate Threaded(hash: Key -> nat, chains: seq<seq<Elt>>, R: set<Elt>)
  {
    && |chains| > 0
    && (forall b :: 0 <= b < |chains| ==> OnChain(hash, chains, b, R))
    && (forall e | e in R :: e in chains[ToBkt(hash, e.key, |chains|)])
  }

  ghost predicate HangsOff(buckets: seq<Bucket>, chains: seq<seq<Elt>>, b: nat, R: set<Elt>)
    requires b < |buckets| == |chains|
    reads R`hhNext, R`hhPrev
  {
    (forall x | x in chains[b] :: x in R) && ChainOk(buckets[b], chains[b])
  }

  ghost predicate Hung(buckets: seq<Bucket>, chains: seq<seq<Elt>>, R: set<Elt>)
    reads R`hhNext, R`hhPrev
  {
    |buckets| == |chains| && forall b :: 0 <= b < |buckets| ==> HangsOff(buckets, chains, b, R)
  }

  /** The pointer writes of HASH_ADD_TO_BKT (and of the expand loop): e becomes the chain's head. */
  method Prepend(b: Bucket, e: Elt, ghost c: seq<Elt>) returns (b': Bucket)
    requires ChainOk(b, c) && Distinct(c) && e !in c
    modifies e`hhNext, e`hhPrev, (if b.head == null then {} else {b.head})`hhPrev
    ensures b' == Bucket(e, b.count + 1, b.expandMult) && ChainOk(b', [e] + c)
  {
    e.hhNext := b.head;
    e.hhPrev := null;
    if b.head != null {
      b.head.hhPrev := e;
    }
    b' := Bucket(e, b.count + 1, b.expandMult);
    ghost var d := [e] + c;
    forall k | 0 <= k < |d| ensures d[k].hhNext == At(d, k + 1) && d[k].hhPrev == At(d, k - 1) {
      if k > 0 { assert d[k] == c[k - 1]; }
    }
  }

  /** HASH_DEL_IN_BKT */
  method Unchain(b: Bucket, e: Elt, ghost c: seq<Elt>, ghost k: nat, ghost R: set<Elt>) returns (b': Bucket)
    requires ChainOk(b, c) && Distinct(c) && k < |c| && c[k] == e && forall x | x in c :: x in R
    modifies R`hhNext, R`hhPrev
    ensures ChainOk(b', Without(c, k)) && b'.expandMult == b.expandMult
    ensures forall x | x in R && x !in c :: x.hhNext == old(x.hhNext) && x.hhPrev == old(x.hhPrev)
  {
    b' := b.(count := b.count - 1);
    if b.head == e {
      b' := b'.(head := e.hhNext);
    }
    if e.hhPrev != null {
      e.hhPrev.hhNext := e.hhNext;
    }
    if e.hhNext != null {
      e.hhNext.hhPrev := e.hhPrev;
    }
    ghost var d := Without(c, k);
    forall i | 0 <= i < |d| ensures d[i].hhNext == At(d, i + 1) && d[i].hhPrev == At(d, i - 1) {
      if i < k { assert d[i] == c[i]; } else { assert d[i] == c[i + 1]; }
    }
  }

  /** max(0, count - ideal): the items of one chain that lie beyond the ideal length. */
  function Over(b: Bucket, ideal: nat): nat {
    if b.count > ideal then b.count - ideal else 0
  }

  function Excess(buckets: seq<Bucket>, ideal: nat): nat {
    if buckets == [] then 0 else Over(buckets[0], ideal) + Excess(buckets[1..], ideal)
  }

  lemma {:induction false} ExcessUpdate(buckets: seq<Bucket>, i: nat, b: Bucket, ideal: nat)
    requires i < |buckets|
    ensures Excess(buckets[i := b], ideal) == Excess(buckets, ideal) - Over(buckets[i], ideal) + Over(b, ideal)
    decreases |buckets|
  {
    var u := buckets[i := b];
    if i == 0 {
      assert u[1..] == buckets[1..];
    } else {
      assert u[1..] == buckets[1..][i - 1 := b];
      ExcessUpdate(buckets[1..], i - 1, b, ideal);
    }
  }

  lemma ThreadedAdd(hash: Key -> nat, chains: seq<seq<Elt>>, R: set<Elt>, e: Elt)
    requires Threaded(hash, chains, R) && e !in R
    ensures var t := ToBkt(hash, e.key, |chains|);
            Threaded(hash, chains[t := [e] + chains[t]], R + {e})
  {
    var t := ToBkt(hash, e.key, |chains|);
    var cs := chains[t := [e] + chains[t]];
    forall b | 0 <= b < |cs| ensures OnChain(hash, cs, b, R + {e}) {
      assert OnChain(hash, chains, b, R);
      if b == t { DistinctCons(e, chains[t]); }
    }
    forall x | x in R + {e} ensures x in cs[ToBkt(hash, x.key, |cs|)] {
    }
  }

  lemma DistinctCons<X>(x: X, s: seq<X>)
    requires Distinct(s) && x !in s
    ensures Distinct([x] + s)
  {
  }

  /** Hang e in front of the chain its hash selects; mult becomes that bucket's expand_mult. */
  method PrependTo(hash: Key -> nat, buckets: seq<Bucket>, t: nat, e: Elt, mult: nat,
                   ghost chains: seq<seq<Elt>>, ghost done: set<Elt>, ghost R: set<Elt>)
    returns (buckets': seq<Bucket>, ghost chains': seq<seq<Elt>>)
    requires Hung(buckets, chains, R) && Threaded(hash, chains, done) && done <= R
    requires e in R && e !in done && t == ToBkt(hash, e.key, |buckets|)
    modifies R`hhNext, R`hhPrev
    ensures buckets' == buckets[t := Bucket(e, buckets[t].count + 1, mult)]
    ensures chains' == chains[t := [e] + chains[t]]
    ensures Hung(buckets', chains', R) && Threaded(hash, chains', done + {e})
    ensures forall x | x in R && x !in done && x != e :: x.hhNext == old(x.hhNext)
  {
    hide Distinct;
    assert OnChain(hash, chains, t, done) && HangsOff(buckets, chains, t, R);
    ghost var c, hd := chains[t], buckets[t].head;
    ThreadedAdd(hash, chains, done, e);
    var b' := Prepend(buckets[t], e, c);
    buckets', chains' := buckets[t := b'.(expandMult := mult)], chains[t := [e] + c];
    forall b | 0 <= b < |buckets'| ensures HangsOff(buckets', chains', b, R) {
      if b != t {
        assert old(HangsOff(buckets, chains, b, R)) && OnChain(hash, chains, b, done);
        assert forall k :: 0 <= k < |chains[b]| ==> chains[b][k] in chains[b];
      }
    }
  }

  /** The hash value stored with every element is the hash of its key. */
  ghost predicate HashvOk(hash: Key -> nat, R: set<Elt>)
    reads R`hashv
  {
    forall e | e in R :: e.hashv == hash(e.key)
  }

  ghost predicate Ahead(i: nat, j: nat, b: int, k: int) {
    b > i || (b == i && k >= j)
  }

  /** In the old chains, what lies ahead of (i, j) is untouched and what lies behind has moved. */
  ghost predicate Split(chains: seq<seq<Elt>>, i: nat, j: nat, done: set<Elt>, R: set<Elt>)
    reads R`hhNext
  {
    forall b, k {:trigger chains[b][k]} :: 0 <= b < |chains| && 0 <= k < |chains[b]| ==>
      && chains[b][k] in R
      && (if Ahead(i, j, b, k) then chains[b][k] !in done && chains[b][k].hhNext == At(chains[b], k + 1)
          else chains[b][k] in done)
  }

  /** What the expand loops keep: nb/nc are a sound table for the elements moved so far. */
  ghost predicate Rehashing(hash: Key -> nat, chains: seq<seq<Elt>>, i: nat, j: nat,
                            nb: seq<Bucket>, nc: seq<seq<Elt>>, done: set<Elt>, R: set<Elt>)
    reads R`hhNext, R`hhPrev
  {
    && Threaded(hash, chains, R) && Threaded(hash, nc, done) && done <= R
    && Hung(nb, nc, R) && |nb| == 2 * |chains| && Split(chains, i, j, done, R)
  }

  /** HASH_TO_BKT on the stored hash value. */
  method StoredBkt(hash: Key -> nat, e: Elt, n: nat) returns (t: nat)
    requires n > 0 && e.hashv == hash(e.key)
    ensures t == ToBkt(hash, e.key, n)
  {
    t := e.hashv % n;
  }

  /** expand_mult after a chain has grown to count during an expansion. */
  function Grown(mult: nat, count: nat, ideal: nat): nat {
    if count > ideal && count > mult * ideal then mult + 1 else mult
  }

  /**
   The multiplier of a chain of count elements that grew from nothing during an expansion: 0 up to
   the ideal length; beyond it one more for every element, until it is ceil(count / ideal).
   */
  ghost predicate MultRight(b: Bucket, ideal: nat) {
    if b.count <= ideal then b.expandMult == 0
    else
      && 0 < b.expandMult <= b.count - ideal && b.expandMult * ideal - ideal < b.count
      && (b.expandMult == b.count - ideal || b.count <= b.expandMult * ideal)
  }

  ghost predicate MultsRight(buckets: seq<Bucket>, ideal: nat) {
    forall b :: 0 <= b < |buckets| ==> MultRight(buckets[b], ideal)
  }

  lemma GrownRight(b: Bucket, e: Elt, ideal: nat)
    requires MultRight(b, ideal) && ideal > 0
    ensures MultRight(Bucket(e, b.count + 1, Grown(b.expandMult, b.count + 1, ideal)), ideal)
  {
    assert (b.expandMult + 1) * ideal == b.expandMult * ideal + ideal;
  }

  /** The body of the inner expand loop: move the element at (i, j) to its new bucket. */
  method MoveOne(hash: Key -> nat, e: Elt, nb: seq<Bucket>, ideal: nat, nonideal: nat,
                 ghost chains: seq<seq<Elt>>, ghost i: nat, ghost j: nat,
                 ghost nc: seq<seq<Elt>>, ghost done: set<Elt>, ghost R: set<Elt>)
    returns (nxt: Elt?, nb': seq<Bucket>, nonideal': nat, ghost nc': seq<seq<Elt>>)
    requires Rehashing(hash, chains, i, j, nb, nc, done, R) && HashvOk(hash, R)
    requires i < |chains| && j < |chains[i]| && e == chains[i][j] && e in R && |nb| > 0
    requires nonideal == Excess(nb, ideal) && MultsRight(nb, ideal) && ideal > 0
    modifies R`hhNext, R`hhPrev
    ensures nxt == At(chains[i], j + 1)
    ensures Rehashing(hash, chains, i, j + 1, nb', nc', done + {e}, R)
    ensures nonideal' == Excess(nb', ideal) && MultsRight(nb', ideal)
  {
    hide Distinct, Excess, ToBkt, MultRight, Grown, OnChain, Threaded, Hung;
    nxt := e.hhNext;
    var t := StoredBkt(hash, e, |nb|);
    var count := nb[t].count + 1;
    var mult := Grown(nb[t].expandMult, count, ideal);
    nonideal' := if count > ideal then nonideal + 1 else nonideal;
    GrownRight(nb[t], e, ideal);
    ExcessUpdate(nb, t, Bucket(e, count, mult), ideal);
    nb', nc' := PrependTo(hash, nb, t, e, mult, nc, done, R);
    SplitStep(chains, hash, i, j, R);
  }

  /** No element of the old chains occurs at two places. */
  lemma SplitStep(chains: seq<seq<Elt>>, hash: Key -> nat, i: nat, j: nat, R: set<Elt>)
    requires Threaded(hash, chains, R) && i < |chains| && j < |chains[i]|
    ensures forall b, k {:trigger chains[b][k]} :: 0 <= b < |chains| && 0 <= k < |chains[b]| && (b, k) != (i, j) ==>
      chains[b][k] != chains[i][j]
  {
    forall b, k {:trigger chains[b][k]} | 0 <= b < |chains| && 0 <= k < |chains[b]| && (b, k) != (i, j)
      ensures chains[b][k] != chains[i][j]
    {
      assert OnChain(hash, chains, b, R) && OnChain(hash, chains, i, R);
      assert chains[b][k] in chains[b] && chains[i][j] in chains[i];
    }
  }

  function NoBuckets(n: nat): (s: seq<Bucket>)
    ensures |s| == n
  {
    seq(n, _ => Bucket(null, 0, 0))
  }

  ghost function NoChains(n: nat): (s: seq<seq<Elt>>)
    ensures |s| == n
  {
    seq(n, _ => [])
  }

  lemma EmptyTable(hash: Key -> nat, n: nat, R: set<Elt>, ideal: nat)
    requires n > 0
    ensures Hung(NoBuckets(n), NoChains(n), R) && Threaded(hash, NoChains(n), {}) && Excess(NoBuckets(n), ideal) == 0
  {
    NoExcess(NoBuckets(n), ideal);
    var nc := NoChains(n);
    assert forall b :: 0 <= b < n ==> OnChain(hash, nc, b, {});
  }

  lemma {:induction false} NoExcess(nb: seq<Bucket>, ideal: nat)
    requires forall b :: 0 <= b < |nb| ==> nb[b].count == 0
    ensures Excess(nb, ideal) == 0
    decreases |nb|
  {
    if nb != [] { NoExcess(nb[1..], ideal); }
  }

  lemma SplitStart(hash: Key -> nat, buckets: seq<Bucket>, chains: seq<seq<Elt>>, R: set<Elt>)
    requires Hung(buckets, chains, R) && Threaded(hash, chains, R)
    ensures Split(chains, 0, 0, {}, R)
  {
    forall b, k {:trigger chains[b][k]} | 0 <= b < |chains| && 0 <= k < |chains[b]|
      ensures chains[b][k] in R && chains[b][k].hhNext == At(chains[b], k + 1)
    {
      assert HangsOff(buckets, chains, b, R);
      assert chains[b][k] in chains[b];
    }
  }

  lemma SplitEnd(hash: Key -> nat, chains: seq<seq<Elt>>, done: set<Elt>, R: set<Elt>)
    requires Threaded(hash, chains, R) && Split(chains, |chains|, 0, done, R) && done <= R
    ensures done == R
  {
    forall e | e in R ensures e in done {
      var b := ToBkt(hash, e.key, |chains|);
      var k :| 0 <= k < |chains[b]| && chains[b][k] == e;
      assert chains[b][k] in done;
    }
  }

  lemma HeadOf(buckets: seq<Bucket>, chains: seq<seq<Elt>>, b: nat, R: set<Elt>)
    requires Hung(buckets, chains, R) && b < |buckets|
    ensures buckets[b].head == At(chains[b], 0) && buckets[b].count == |chains[b]|
  {
    assert HangsOff(buckets, chains, b, R);
  }

  lemma RehashStart(hash: Key -> nat, buckets: seq<Bucket>, ideal: nat, chains: seq<seq<Elt>>, R: set<Elt>)
    requires Hung(buckets, chains, R) && Threaded(hash, chains, R)
    ensures |buckets| == |chains| && forall b :: 0 <= b < |buckets| ==> buckets[b].head == At(chains[b], 0)
    ensures Rehashing(hash, chains, 0, 0, NoBuckets(2 * |buckets|), NoChains(2 * |buckets|), {}, R)
    ensures Excess(NoBuckets(2 * |buckets|), ideal) == 0 && MultsRight(NoBuckets(2 * |buckets|), ideal)
  {
    assert |buckets| == |chains| > 0;
    forall b | 0 <= b < |buckets| ensures buckets[b].head == At(chains[b], 0) { HeadOf(buckets, chains, b, R); }
    hide Hung, Threaded, Split, Excess;
    EmptyTable(hash, 2 * |buckets|, R, ideal);
    SplitStart(hash, buckets, chains, R);
  }

  /** The loops of HASH_EXPAND_BUCKETS: every chain is walked and redistributed over twice as many. */
  method Redistribute(hash: Key -> nat, buckets: seq<Bucket>, ideal: nat,
                      ghost chains: seq<seq<Elt>>, ghost R: set<Elt>)
    returns (nb: seq<Bucket>, nonideal: nat, ghost nc: seq<seq<Elt>>)
    requires Hung(buckets, chains, R) && Threaded(hash, chains, R) && HashvOk(hash, R)
    requires R != {} ==> ideal > 0
    modifies R`hhNext, R`hhPrev
    ensures Hung(nb, nc, R) && Threaded(hash, nc, R) && |nb| == 2 * |buckets|
    ensures nonideal == Excess(nb, ideal) && MultsRight(nb, ideal)
  {
    hide Hung, Threaded, Split, Excess, HashvOk, MultsRight;
    RehashStart(hash, buckets, ideal, chains, R);
    nb, nc := NoBuckets(2 * |buckets|), NoChains(2 * |buckets|);
    nonideal := 0;
    ghost var done: set<Elt> := {};
    for i := 0 to |buckets|
      invariant Rehashing(hash, chains, i, 0, nb, nc, done, R)
      invariant nonideal == Excess(nb, ideal) && MultsRight(nb, ideal)
    {
      nb, nonideal, nc, done := MoveChain(hash, buckets[i].head, nb, ideal, nonideal, chains, i, nc, done, R);
    }
    SplitEnd(hash, chains, done, R);
  }

  /** The inner while loop of HASH_EXPAND_BUCKETS: empty one old chain. */
  method MoveChain(hash: Key -> nat, head: Elt?, nb0: seq<Bucket>, ideal: nat, nonideal0: nat,
                   ghost chains: seq<seq<Elt>>, ghost i: nat,
                   ghost nc0: seq<seq<Elt>>, ghost done0: set<Elt>, ghost R: set<Elt>)
    returns (nb: seq<Bucket>, nonideal: nat, ghost nc: seq<seq<Elt>>, ghost done: set<Elt>)
    requires Rehashing(hash, chains, i, 0, nb0, nc0, done0, R) && HashvOk(hash, R)
    requires i < |chains| && head == At(chains[i], 0) && nonideal0 == Excess(nb0, ideal)
    requires MultsRight(nb0, ideal) && (R != {} ==> ideal > 0)
    modifies R`hhNext, R`hhPrev
    ensures Rehashing(hash, chains, i + 1, 0, nb, nc, done, R)
    ensures nonideal == Excess(nb, ideal) && MultsRight(nb, ideal)
  {
    hide Hung, Threaded, Split, Excess, MultsRight;
    nb, nonideal, nc, done := nb0, nonideal0, nc0, done0;
    var thh := head;
    ghost var j := 0;
    while thh != null
      invariant j <= |chains[i]| && thh == At(chains[i], j)
      invariant Rehashing(hash, chains, i, j, nb, nc, done, R) && HashvOk(hash, R)
      invariant nonideal == Excess(nb, ideal) && MultsRight(nb, ideal)
      decreases |chains[i]| - j
    {
      RehashingFacts(hash, chains, i, j, nb, nc, done, R);
      ghost var e := thh;
      thh, nb, nonideal, nc := MoveOne(hash, thh, nb, ideal, nonideal, chains, i, j, nc, done, R);
      done, j := done + {e}, j + 1;
    }
    SplitNext(chains, i, done, R);
  }

  lemma RehashingFacts(hash: Key -> nat, chains: seq<seq<Elt>>, i: nat, j: nat,
                       nb: seq<Bucket>, nc: seq<seq<Elt>>, done: set<Elt>, R: set<Elt>)
    requires Rehashing(hash, chains, i, j, nb, nc, done, R) && i < |chains| && j < |chains[i]|
    ensures chains[i][j] in R && |nb| > 0
  {
  }

  lemma SplitNext(chains: seq<seq<Elt>>, i: nat, done: set<Elt>, R: set<Elt>)
    requires i < |chains| && Split(chains, i, |chains[i]|, done, R)
    ensures Split(chains, i + 1, 0, done, R)
  {
  }

  lemma ThreadedRemove(hash: Key -> nat, chains: seq<seq<Elt>>, R: set<Elt>, e: Elt, k: nat)
    requires Threaded(hash, chains, R) && e in R
    requires var t := ToBkt(hash, e.key, |chains|); k < |chains[t]| && chains[t][k] == e
    ensures var t := ToBkt(hash, e.key, |chains|); Threaded(hash, chains[t := Without(chains[t], k)], R - {e})
  {
    var t := ToBkt(hash, e.key, |chains|);
    var cs := chains[t := Without(chains[t], k)];
    assert OnChain(hash, chains, t, R);
    DistinctWithout(chains[t], k);
    forall b | 0 <= b < |cs| ensures OnChain(hash, cs, b, R - {e}) {
      assert OnChain(hash, chains, b, R);
    }
    forall x | x in R - {e} ensures x in cs[ToBkt(hash, x.key, |cs|)] {
      if ToBkt(hash, x.key, |cs|) == t {
        var i :| 0 <= i < |chains[t]| && chains[t][i] == x;
        assert Without(chains[t], k)[if i < k then i else i - 1] == x;
      }
    }
  }

  /** HASH_DEL_IN_BKT on the bucket the element's stored hash value selects. */
  method UnchainFrom(hash: Key -> nat, buckets: seq<Bucket>, e: Elt, ghost chains: seq<seq<Elt>>, ghost R: set<Elt>)
    returns (buckets': seq<Bucket>, ghost chains': seq<seq<Elt>>)
    requires Hung(buckets, chains, R) && Threaded(hash, chains, R) && HashvOk(hash, R) && e in R
    modifies R`hhNext, R`hhPrev
    ensures |buckets'| == |buckets| && Hung(buckets', chains', R - {e}) && Threaded(hash, chains', R - {e})
    ensures forall b :: 0 <= b < |buckets| ==> buckets'[b].expandMult == buckets[b].expandMult
  {
    hide Distinct;
    var t := StoredBkt(hash, e, |buckets|);
    ghost var c := chains[t];
    assert OnChain(hash, chains, t, R) && HangsOff(buckets, chains, t, R);
    ghost var k :| 0 <= k < |c| && c[k] == e;
    ThreadedRemove(hash, chains, R, e, k);
    var b' := Unchain(buckets[t], e, c, k, R);
    buckets', chains' := buckets[t := b'], chains[t := Without(c, k)];
    forall b | 0 <= b < |buckets'| ensures HangsOff(buckets', chains', b, R - {e}) {
      assert OnChain(hash, chains', b, R - {e});
      if b != t {
        assert old(HangsOff(buckets, chains, b, R)) && OnChain(hash, chains, b, R);
        assert forall i :: 0 <= i < |chains[b]| ==> chains[b][i] in chains[b];
      }
    }
  }

  /** HASH_FIND_IN_BKT: the element of the chain with this hash value and key, if any. */
  method FindInBucket(b: Bucket, key: Key, hashval: nat, ghost c: seq<Elt>) returns (found: Elt?)
    requires ChainOk(b, c)
    ensures found != null ==> found in c && found.hashv == hashval && found.key == key
    ensures found == null ==> forall x | x in c :: x.hashv != hashval || x.key != key
  {
    found := b.head;
    ghost var k := 0;
    while found != null
      invariant k <= |c| && found == At(c, k)
      invariant forall i :: 0 <= i < k ==> c[i].hashv != hashval || c[i].key != key
      decreases |c| - k
    {
      if found.hashv == hashval && found.key == key {
        break;
      }
      found := found.hhNext;
      k := k + 1;
    }
  }

  /** The sum of the bucket counts, as HASH_FSCK adds them up. */
  function CountSum(buckets: seq<Bucket>, n: nat): nat
    requires n <= |buckets|
  {
    if n == 0 then 0 else CountSum(buckets, n - 1) + buckets[n - 1].count
  }

  /** The sum of what each chain holds up to the ideal length. */
  function WithinSum(buckets: seq<Bucket>, ideal: nat, n: nat): nat
    requires n <= |buckets|
  {
    if n == 0 then 0 else WithinSum(buckets, ideal, n - 1) + Min(buckets[n - 1].count, ideal)
  }

  /** The items past the ideal length are all the items but those within it; none when every chain is within it. */
  lemma ExcessIsTheRest(buckets: seq<Bucket>, ideal: nat)
    ensures Excess(buckets, ideal) + WithinSum(buckets, ideal, |buckets|) == CountSum(buckets, |buckets|)
    ensures Excess(buckets, ideal) == 0 <==> forall b :: 0 <= b < |buckets| ==> buckets[b].count <= ideal
  {
    ExcessFrom(buckets, ideal, 0);
    assert buckets[0..] == buckets;
  }

  lemma {:induction false} ExcessFrom(buckets: seq<Bucket>, ideal: nat, k: nat)
    requires k <= |buckets|
    ensures Excess(buckets[k..], ideal) + WithinSum(buckets, ideal, |buckets|) - WithinSum(buckets, ideal, k)
         == CountSum(buckets, |buckets|) - CountSum(buckets, k)
    ensures Excess(buckets[k..], ideal) == 0 <==> forall b :: k <= b < |buckets| ==> buckets[b].count <= ideal
    decreases |buckets| - k
  {
    if k < |buckets| {
      assert buckets[k..][0] == buckets[k] && buckets[k..][1..] == buckets[k + 1..];
      ExcessFrom(buckets, ideal, k + 1);
    }
  }

  ghost function Flatten(chains: seq<seq<Elt>>, n: nat): seq<Elt>
    requires n <= |chains|
  {
    if n == 0 then [] else Flatten(chains, n - 1) + chains[n - 1]
  }

  lemma {:induction false} FlattenHolds(hash: Key -> nat, chains: seq<seq<Elt>>, R: set<Elt>, n: nat)
    requires Threaded(hash, chains, R) && n <= |chains|
    ensures Distinct(Flatten(chains, n))
    ensures forall x | x in Flatten(chains, n) :: x in R && ToBkt(hash, x.key, |chains|) < n
    ensures forall x | x in R && ToBkt(hash, x.key, |chains|) < n :: x in Flatten(chains, n)
  {
    if n > 0 {
      FlattenHolds(hash, chains, R, n - 1);
      assert OnChain(hash, chains, n - 1, R);
      DistinctConcat(Flatten(chains, n - 1), chains[n - 1]);
    }
  }

  lemma {:induction false} DistinctCard<X>(s: seq<X>, R: set<X>)
    requires Distinct(s) && forall x :: x in s <==> x in R
    ensures |s| == |R|
  {
    if s == [] {
      assert R == {};
    } else {
      var n := |s| - 1;
      var x := s[n];
      assert forall y :: y in s[..n] <==> y in R - {x} by {
        assert forall i :: 0 <= i < n ==> s[..n][i] == s[i];
        assert forall y :: y in s <==> y in s[..n] || y == x by { assert s == s[..n] + [x]; }
      }
      DistinctCard(s[..n], R - {x});
      assert x in R;
    }
  }

  lemma {:induction false} CountsAreLengths(buckets: seq<Bucket>, chains: seq<seq<Elt>>, R: set<Elt>, n: nat)
    requires Hung(buckets, chains, R) && n <= |buckets|
    ensures CountSum(buckets, n) == |Flatten(chains, n)|
  {
    if n > 0 {
      CountsAreLengths(buckets, chains, R, n - 1);
      HeadOf(buckets, chains, n - 1, R);
    }
  }

  /** The bucket counts add up to the number of elements. */
  lemma CountsAddUp(hash: Key -> nat, buckets: seq<Bucket>, chains: seq<seq<Elt>>, R: set<Elt>)
    requires Hung(buckets, chains, R) && Threaded(hash, chains, R)
    ensures CountSum(buckets, |buckets|) == |R|
  {
    FlattenHolds(hash, chains, R, |chains|);
    DistinctCard(Flatten(chains, |chains|), R);
    CountsAreLengths(buckets, chains, R, |buckets|);
  }
}
