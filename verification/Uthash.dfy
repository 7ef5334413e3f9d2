/**
 uthash: elements threaded at once on an application-order list (prev, next) and on bucket
 chains (hhPrev, hhNext). `app` is the abstract value: the elements in application order.
 The object invariant is what HASH_FSCK checks, plus the tail pointer and the placement of
 every element on the chain its hash value selects.
 */
module Uthash {
  import opened Sequences
  import opened MergeSort
  import opened Elements
  import opened Utlist
  import opened HashBuckets
  import PointerSort

  const INITIAL_NUM_BUCKETS: nat := 32
  const INITIAL_NUM_BUCKETS_LOG2: nat := 5

  function Pow2(k: nat): (p: nat)
    ensures p > 0
  {
    if k == 0 then 1 else 2 * Pow2(k - 1)
  }

  ghost function Items(app: seq<Elt>): set<Elt> {
    set x | x in app
  }

  /** The application-order list: head, tail and both directions of links. */
  ghost predicate AppOk(app: seq<Elt>, head: Elt?, tail: Elt?)
    reads app`prev, app`next
  {
    && Distinct(app) && head == At(app, 0) && (app != [] ==> tail == app[|app| - 1])
    && NextFrom(app, 0) && PrevLinks(app)
  }

  ghost predicate DistinctKeys(app: seq<Elt>) {
    forall i, j :: 0 <= i < j < |app| ==> app[i].key != app[j].key
  }

  ghost predicate NoKey(app: seq<Elt>, key: Key) {
    forall x | x in app :: x.key != key
  }

  /** HASH_APPEND_LIST */
  method AppendList(tail: Elt, add: Elt, ghost app: seq<Elt>, ghost head: Elt?)
    requires AppOk(app, head, tail) && app != [] && add !in app
    modifies add`next, add`prev, tail`next
    ensures AppOk(app + [add], head, add)
  {
    DistinctAppend(app, add);
    add.next := null;
    add.prev := tail;
    tail.next := add;
    ghost var s := app + [add];
    forall k | 0 <= k < |s| ensures s[k].next == At(s, k + 1) && s[k].prev == At(s, k - 1) {
      if k < |app| { assert s[k] == app[k]; }
    }
  }

  /** The app-order patch-up of HASH_DELETE_HH, for a list of at least two elements. */
  method UnlinkApp(head: Elt, tail: Elt, del: Elt, ghost app: seq<Elt>, ghost k: nat, ghost R: set<Elt>)
    returns (head': Elt?, tail': Elt?)
    requires AppOk(app, head, tail) && k < |app| && app[k] == del && |app| > 1
    requires forall x | x in app :: x in R
    modifies R`prev, R`next
    ensures AppOk(Without(app, k), head', tail')
  {
    DistinctWithout(app, k);
    head', tail' := head, tail;
    if del == tail {
      tail' := del.prev;
    }
    if del.prev != null {
      del.prev.next := del.next;
    } else {
      head' := del.next;
    }
    if del.next != null {
      del.next.prev := del.prev;
    }
    UnlinkLinks(app, k);
  }

  /** Linked as the code leaves it, read off the old sequence, app without its k-th element is a list. */
  lemma UnlinkLinks(app: seq<Elt>, k: nat)
    requires k < |app|
    requires forall i {:trigger app[i].next} :: 0 <= i < |app| && i != k ==>
      app[i].next == At(app, if i + 1 == k then k + 1 else i + 1)
    requires forall i {:trigger app[i].prev} :: 0 <= i < |app| && i != k ==>
      app[i].prev == At(app, if i == k + 1 then k - 1 else i - 1)
    ensures NextFrom(Without(app, k), 0) && PrevLinks(Without(app, k))
  {
    var s := Without(app, k);
    forall i | 0 <= i < |s| ensures s[i].next == At(s, i + 1) && s[i].prev == At(s, i - 1) {
      if i < k { assert s[i] == app[i]; } else { assert s[i] == app[i + 1]; }
    }
  }

  ghost function Inserted<X>(s: seq<X>, k: nat, x: X): seq<X>
    requires k <= |s|
  {
    s[..k] + [x] + s[k..]
  }

  /** HASH_AKBI_INNER_LOOP: the first element that compares greater than add, or null. */
  method FindPlace(head: Elt, add: Elt, cmp: (Data, Data) -> int, ghost app: seq<Elt>, ghost tail: Elt?)
    returns (iter: Elt?, ghost k: nat)
    requires AppOk(app, head, tail)
    ensures k <= |app| && iter == At(app, k)
    ensures forall i :: 0 <= i < k ==> cmp(app[i].data, add.data) <= 0
    ensures k < |app| ==> cmp(app[k].data, add.data) > 0
  {
    hide Distinct, PrevLinks;
    iter, k := head, 0;
    while iter != null
      invariant k <= |app| && iter == At(app, k)
      invariant forall i :: 0 <= i < k ==> cmp(app[i].data, add.data) <= 0
      decreases |app| - k
    {
      if cmp(iter.data, add.data) > 0 { break; }
      iter := iter.next;
      k := k + 1;
    }
  }

  /** The in-order branch of HASH_ADD_KEYPTR_BYHASHVALUE_INORDER: link add in front of iter. */
  method LinkBefore(head: Elt, iter: Elt, add: Elt,
                    ghost app: seq<Elt>, ghost k: nat, ghost tail: Elt?, ghost R: set<Elt>)
    returns (head': Elt)
    requires AppOk(app, head, tail) && k < |app| && iter == app[k] && add !in app
    requires add in R && forall x | x in app :: x in R
    modifies R`prev, R`next
    ensures AppOk(Inserted(app, k, add), head', tail)
  {
    DistinctInserted(app, k, add);
    head' := head;
    add.next := iter;
    add.prev := iter.prev;
    if add.prev != null {
      add.prev.next := add;
    } else {
      head' := add;
    }
    iter.prev := add;
    InsertLinks(app, k, add);
  }

  /** Linked as the code leaves it, read off the old sequence, app is the longer list. */
  lemma InsertLinks(app: seq<Elt>, k: nat, add: Elt)
    requires k < |app| && add.next == app[k] && add.prev == At(app, k - 1)
    requires forall i {:trigger app[i].next} :: 0 <= i < |app| ==>
      app[i].next == if i + 1 == k then add else At(app, i + 1)
    requires forall i {:trigger app[i].prev} :: 0 <= i < |app| ==> app[i].prev == if i == k then add else At(app, i - 1)
    ensures NextFrom(Inserted(app, k, add), 0) && PrevLinks(Inserted(app, k, add))
  {
    var s := Inserted(app, k, add);
    forall i | 0 <= i < |s| ensures s[i].next == At(s, i + 1) && s[i].prev == At(s, i - 1) {
      if i < k { assert s[i] == app[i]; } else if i > k { assert s[i] == app[i - 1]; }
    }
  }

  lemma DistinctInserted<X>(s: seq<X>, k: nat, x: X)
    requires Distinct(s) && k <= |s| && x !in s
    ensures Distinct(Inserted(s, k, x))
    ensures forall y :: y in Inserted(s, k, x) <==> y in s || y == x
  {
    assert s == s[..k] + s[k..];
  }

  lemma InsertedLast<X>(s: seq<X>, x: X)
    ensures Inserted(s, |s|, x) == s + [x] && (s == [] ==> Inserted(s, 0, x) == [x])
  {
  }

  /** The non-empty branch of HASH_ADD_KEYPTR_BYHASHVALUE_INORDER. */
  method PlaceInorder(head: Elt, tail: Elt?, add: Elt, cmp: (Data, Data) -> int, ghost app: seq<Elt>, ghost R: set<Elt>)
    returns (head': Elt, tail': Elt?, ghost k: nat)
    requires AppOk(app, head, tail) && add !in app
    requires add in R && forall x | x in app :: x in R
    modifies R`prev, R`next
    ensures k <= |app| && AppOk(Inserted(app, k, add), head', tail')
    ensures forall i :: 0 <= i < k ==> cmp(app[i].data, add.data) <= 0
    ensures k < |app| ==> cmp(app[k].data, add.data) > 0
  {
    hide AppOk, Distinct, Inserted;
    var iter;
    head', tail' := head, tail;
    iter, k := FindPlace(head, add, cmp, app, tail);
    if iter != null {
      head' := LinkBefore(head, iter, add, app, k, tail, R);
    } else {
      AppNonempty(app, head, tail);
      AppendList(tail, add, app, head);
      InsertedLast(app, add);
      tail' := add;
    }
  }

  /** q is the least number of buckets-full that holds n items: ceil(n / b). */
  ghost predicate IsCeil(q: nat, n: nat, b: nat) {
    n <= q * b && (q == 0 || (q - 1) * b < n)
  }

  /** ceil(n/b) by a shift and a mask, as HASH_EXPAND_BUCKETS computes it for the doubled table. */
  function IdealLength(numItems: nat, log2: nat, numBuckets: nat): (q: nat)
    requires numBuckets == Pow2(log2)
    ensures IsCeil(q, numItems, 2 * numBuckets)
  {
    var b := 2 * numBuckets;
    CeilByRemainder(numItems, b);
    numItems / Pow2(log2 + 1) + (if numItems % b != 0 then 1 else 0)
  }

  lemma CeilByRemainder(n: nat, b: nat)
    requires b > 0
    ensures IsCeil(n / b + (if n % b != 0 then 1 else 0), n, b)
  {
    var q := n / b;
    assert n == q * b + n % b;
    assert (q + 1) * b == q * b + b;
    assert q > 0 ==> (q - 1) * b == q * b - b;
  }

  lemma HungMonotone(buckets: seq<Bucket>, chains: seq<seq<Elt>>, R: set<Elt>, S: set<Elt>)
    requires Hung(buckets, chains, R) && R <= S
    ensures Hung(buckets, chains, S)
  {
    forall b | 0 <= b < |buckets| ensures HangsOff(buckets, chains, b, S) {
      assert HangsOff(buckets, chains, b, R);
    }
  }

  class Table {
    const hash: Key -> nat

    var head: Elt?
    var tail: Elt?
    var numItems: nat
    var buckets: seq<Bucket>
    var log2NumBuckets: nat
    var idealChainMaxlen: nat
    var nonidealItems: nat
    var ineffExpands: nat
    var noexpand: bool
    ghost var app: seq<Elt>
    ghost var chains: seq<seq<Elt>>

    /** The bucket half of the invariant, for the elements R. */
    ghost predicate Chained(R: set<Elt>)
      reads this`buckets, this`chains, this`log2NumBuckets, R`hhNext, R`hhPrev, R`hashv
    {
      && Hung(buckets, chains, R) && Threaded(hash, chains, R) && HashvOk(hash, R)
      && |buckets| == Pow2(log2NumBuckets)
    }

    ghost predicate Valid()
      reads this, Items(app)
    {
      && AppOk(app, head, tail) && DistinctKeys(app)
      && (app != [] ==> Chained(Items(app)) && numItems == |app|)
    }

    constructor (hash: Key -> nat)
      ensures Valid() && app == [] && this.hash == hash
    {
      this.hash := hash;
      head, tail, app, chains := null, null, [], [];
    }

    /** HASH_EXPAND_BUCKETS */
    method Expand(ghost R: set<Elt>)
      requires Chained(R) && (R != {} ==> numItems > 0)
      modifies this`buckets, this`chains, this`log2NumBuckets, this`idealChainMaxlen, this`nonidealItems,
        this`ineffExpands, this`noexpand, R`hhNext, R`hhPrev
      ensures Chained(R)
      ensures |buckets| == 2 * |old(buckets)| && log2NumBuckets == old(log2NumBuckets) + 1
      ensures IsCeil(idealChainMaxlen, numItems, |buckets|)
      ensures nonidealItems == Excess(buckets, idealChainMaxlen) && MultsRight(buckets, idealChainMaxlen)
      ensures ineffExpands == if nonidealItems > numItems / 2 then old(ineffExpands) + 1 else 0
      ensures noexpand == (old(noexpand) || ineffExpands > 1)
    {
      hide Threaded, Hung, Excess, IdealLength, HashvOk, MultsRight;
      var ideal := IdealLength(numItems, log2NumBuckets, |buckets|);
      hide IsCeil;
      var nb, nonideal, nc := Redistribute(hash, buckets, ideal, chains, R);
      buckets, chains := nb, nc;
      log2NumBuckets := log2NumBuckets + 1;
      idealChainMaxlen, nonidealItems := ideal, nonideal;
      ineffExpands := if nonidealItems > numItems / 2 then ineffExpands + 1 else 0;
      if ineffExpands > 1 {
        noexpand := true;
      }
    }

    /** HASH_ADD_TO_TABLE with HASH_ADD_TO_BKT: chain add, and expand exactly when its chain is too long. */
    method AddToTable(add: Elt, ghost R: set<Elt>)
      requires Chained(R) && add !in R && add.hashv == hash(add.key)
      modifies this`buckets, this`chains, this`log2NumBuckets, this`idealChainMaxlen, this`nonidealItems,
        this`ineffExpands, this`noexpand, this`numItems, (R + {add})`hhNext, (R + {add})`hhPrev
      ensures Chained(R + {add}) && numItems == old(numItems) + 1
      ensures var b := old(buckets)[ToBkt(hash, add.key, |old(buckets)|)];
              var full := b.count + 1 >= (b.expandMult + 1) * CAPACITY_THRESH;
              if full && !old(noexpand) then
                && |buckets| == 2 * |old(buckets)| && IsCeil(idealChainMaxlen, numItems, |buckets|)
                && nonidealItems == Excess(buckets, idealChainMaxlen) && MultsRight(buckets, idealChainMaxlen)
                && ineffExpands == (if nonidealItems > numItems / 2 then old(ineffExpands) + 1 else 0)
                && noexpand == (ineffExpands > 1)
              else
                && |buckets| == |old(buckets)|
                && (forall i :: 0 <= i < |buckets| ==> buckets[i].expandMult == old(buckets)[i].expandMult)
                && idealChainMaxlen == old(idealChainMaxlen) && nonidealItems == old(nonidealItems)
                && ineffExpands == old(ineffExpands) && noexpand == old(noexpand)
    {
      hide Hung, Excess, OnChain, IsCeil, MultsRight;
      numItems := numItems + 1;
      var t := StoredBkt(hash, add, |buckets|);
      HungMonotone(buckets, chains, R, R + {add});
      buckets, chains := PrependTo(hash, buckets, t, add, buckets[t].expandMult, chains, R, R + {add});
      if buckets[t].count >= (buckets[t].expandMult + 1) * CAPACITY_THRESH && !noexpand {
        Expand(R + {add});
      }
    }

    /** HASH_FIND */
    method Find(key: Key) returns (found: Elt?)
      requires Valid()
      ensures found != null ==> found in app && found.key == key
      ensures found == null ==> NoKey(app, key)
    {
      found := null;
      if head != null {
        var t := ToBkt(hash, key, |buckets|);
        assert HangsOff(buckets, chains, t, Items(app));
        found := FindInBucket(buckets[t], key, hash(key), chains[t]);
        LookupIsExact(hash, chains, Items(app), key, t);
      }
    }

    /** HASH_MAKE_TABLE */
    method MakeTable(add: Elt)
      modifies this
      ensures head == old(head) && app == old(app)
      ensures tail == add && numItems == 0 && Chained({})
      ensures |buckets| == 32 && forall b :: 0 <= b < |buckets| ==> buckets[b].expandMult == 0
      ensures idealChainMaxlen == 0 && nonidealItems == 0 && ineffExpands == 0 && !noexpand
    {
      tail, numItems, noexpand := add, 0, false;
      hide Hung, Threaded, Excess, NoChains;
      buckets, log2NumBuckets := NoBuckets(INITIAL_NUM_BUCKETS), INITIAL_NUM_BUCKETS_LOG2;
      idealChainMaxlen, nonidealItems, ineffExpands := 0, 0, 0;
      chains := NoChains(INITIAL_NUM_BUCKETS);
      EmptyTable(hash, INITIAL_NUM_BUCKETS, {}, 0);
      assert Pow2(3) == 8 && Pow2(INITIAL_NUM_BUCKETS_LOG2) == INITIAL_NUM_BUCKETS;
    }

    /** The first element of a table: a list of one and empty buckets. */
    method StartTable(add: Elt)
      modifies this, add`next, add`prev
      ensures app == old(app) && head == add && tail == add && numItems == 0
      ensures AppOk([add], head, tail) && Chained({})
    {
      hide Chained;
      add.next, add.prev := null, null;
      MakeTable(add);
      head := add;
      AppSingle(add);
    }

    /** HASH_ADD */
    method Add(add: Elt)
      requires Valid() && NoKey(app, add.key)
      modifies this, add, Items(app)
      ensures Valid() && app == old(app) + [add]
    {
      hide Chained, AppOk, Distinct, DistinctKeys;
      ghost var R := Items(app);
      add.hashv := hash(add.key);
      if head == null {
        AppEmpty(app, head, tail);
        StartTable(add);
        assert R == {};
      } else {
        AppNonempty(app, head, tail);
        AppendList(tail, add, app, head);
        tail := add;
      }
      ghost var list := app + [add];
      KeysAppend(app, add);
      assert AppOk(list, head, tail);
      AddToTable(add, R);
      assert AppOk(list, head, tail) && Chained(Items(list));
      app := list;
    }

    /** HASH_ADD_INORDER: in front of the first element that compares greater, else at the end. */
    method AddInorder(add: Elt, cmp: (Data, Data) -> int) returns (ghost k: nat)
      requires Valid() && NoKey(app, add.key)
      modifies this, add, Items(app)
      ensures Valid() && k <= |old(app)| && app == Inserted(old(app), k, add)
      ensures forall i :: 0 <= i < k ==> cmp(old(app)[i].data, add.data) <= 0
      ensures k < |old(app)| ==> cmp(old(app)[k].data, add.data) > 0
    {
      hide Chained, AppOk, Distinct, Inserted, DistinctKeys;
      ghost var R, list := Items(app), app;
      k := LinkInorder(add, cmp);
      list := Inserted(app, k, add);
      assert AppOk(list, head, tail);
      KeysInserted(app, k, add);
      AddToTable(add, R);
      assert AppOk(list, head, tail) && Chained(Items(list));
      app := list;
    }

    /** The application-order half of HASH_ADD_INORDER. */
    method LinkInorder(add: Elt, cmp: (Data, Data) -> int) returns (ghost k: nat)
      requires Valid() && NoKey(app, add.key)
      modifies this, add, Items(app)`prev, Items(app)`next
      ensures app == old(app) && k <= |app| && AppOk(Inserted(app, k, add), head, tail)
      ensures Chained(Items(app)) && numItems == |app| && add.hashv == hash(add.key)
      ensures forall i :: 0 <= i < k ==> cmp(app[i].data, add.data) <= 0
      ensures k < |app| ==> cmp(app[k].data, add.data) > 0
    {
      hide Chained, AppOk, Distinct, Inserted, DistinctKeys;
      k := 0;
      add.hashv := hash(add.key);
      InsertedLast(app, add);
      if head == null {
        AppEmpty(app, head, tail);
        StartTable(add);
        assert Items(app) == {};
      } else {
        AppNonempty(app, head, tail);
        head, tail, k := PlaceInorder(head, tail, add, cmp, app, Items(app) + {add});
      }
    }

    /** HASH_DELETE */
    method Delete(del: Elt)
      requires Valid() && del in app
      modifies this, Items(app)
      ensures Valid() && app == Without(old(app), IndexOf(old(app), del))
    {
      hide Chained, AppOk, Distinct, DistinctKeys, Without;
      ghost var R, k := Items(app), IndexOf(app, del);
      ghost var list := Without(app, k);
      AppAlone(app, head, tail, k);
      AppNext(app, head, tail);
      KeysWithout(app, k);
      if del.prev == null && del.next == null {
        head := null;
        AppNone(tail);
      } else {
        head, tail := UnlinkApp(head, tail, del, app, k, R);
        assert AppOk(list, head, tail);
        Unhash(del, R);
        numItems := numItems - 1;
        assert Chained(Items(list)) && AppOk(list, head, tail);
      }
      app := list;
    }

    method Unhash(del: Elt, ghost R: set<Elt>)
      requires Chained(R) && del in R
      modifies this`buckets, this`chains, R`hhNext, R`hhPrev
      ensures Chained(R - {del})
    {
      hide Hung, Threaded;
      buckets, chains := UnchainFrom(hash, buckets, del, chains, R);
    }

    /** HASH_REPLACE: whatever element had this key goes, and add comes last in application order. */
    method Replace(add: Elt) returns (replaced: Elt?)
      requires Valid()
      modifies this, add, Items(app)
      ensures Valid()
      ensures replaced == null ==> NoKey(old(app), add.key) && app == old(app) + [add]
      ensures replaced != null ==> replaced in old(app) && replaced.key == add.key
                                   && app == Without(old(app), IndexOf(old(app), replaced)) + [add]
    {
      hide Chained, AppOk, Distinct;
      replaced := Find(add.key);
      if replaced != null {
        ghost var k := IndexOf(app, replaced);
        KeysWithout(app, k);
        OnlyKey(app, k);
        Delete(replaced);
      }
      Add(add);
    }

    /** HASH_SRT: app becomes its stable sort; the bucket chains are not touched. */
    method Sort(cmp: (Data, Data) -> int)
      requires Valid() && TotalPreorderOn(ByCmp(cmp), app)
      modifies this`head, this`tail, this`app, Items(app)`prev, Items(app)`next
      ensures Valid() && StableSortOf(ByCmp(cmp), old(app), app)
      ensures Items(app) == old(Items(app)) && buckets == old(buckets)
    {
      hide Chained, AppOk, Distinct, DistinctKeys, StableSortOf, TotalPreorderOn, MergeSort.Sort, PointerSort.PrevOf;
      AppNext(app, head, tail);
      SortIsStable(ByCmp(cmp), app);
      ghost var o := app;
      if head != null {
        head, tail, o := SortList(head, cmp);
      } else {
        SortNothing(ByCmp(cmp), app);
        AppEmpty(app, head, tail);
      }
      SortedKeeps(ByCmp(cmp), app, o);
      assert AppOk(o, head, tail) && (o != [] ==> Chained(Items(o)));
      app := o;
    }

    /** The pointer loops of HASH_SRT on a table that is not empty. */
    method SortList(list0: Elt, cmp: (Data, Data) -> int) returns (list: Elt, last: Elt?, ghost o: seq<Elt>)
      requires app != [] && list0 == app[0] && Distinct(app) && NextFrom(app, 0)
      modifies Items(app)`prev, Items(app)`next
      ensures o == MergeSort.Sort(ByCmp(cmp), app, 1) && AppOk(o, list, last)
    {
      hide Distinct, MergeSort.Sort, PointerSort.PrevOf, AppOk;
      ghost var R := Items(app);
      list, last, o := PointerSort.SortList(cmp, PointerSort.Double, list0, app, R);
      AppSorted(o, list, last, R);
    }
  }

  /** The sums HASH_FSCK compares: bucket counts and application list both give num_items. */
  lemma FsckHolds(t: Table)
    requires t.Valid() && t.app != []
    ensures CountSum(t.buckets, |t.buckets|) == t.numItems == |t.app|
  {
    CountsAddUp(t.hash, t.buckets, t.chains, Items(t.app));
    DistinctCard(t.app, Items(t.app));
  }

  ghost predicate SortedBy(cmp: (Data, Data) -> int, s: seq<Elt>) {
    forall i, j :: 0 <= i < j < |s| ==> cmp(s[i].data, s[j].data) <= 0
  }

  /** HASH_ADD_INORDER keeps a sorted table sorted, and puts equals behind equals. */
  lemma InorderKeepsSorted(cmp: (Data, Data) -> int, app: seq<Elt>, k: nat, add: Elt)
    requires SortedBy(cmp, app) && k <= |app| && TotalPreorderOn(ByCmp(cmp), app + [add])
    requires forall i :: 0 <= i < k ==> cmp(app[i].data, add.data) <= 0
    requires k < |app| ==> cmp(app[k].data, add.data) > 0
    ensures SortedBy(cmp, Inserted(app, k, add))
    ensures forall i :: k <= i < |app| ==> cmp(app[i].data, add.data) > 0
  {
    var le, all := ByCmp(cmp), app + [add];
    forall i | k <= i < |app| ensures cmp(app[i].data, add.data) > 0 && cmp(add.data, app[i].data) <= 0 {
      assert all[k] == app[k] && all[i] == app[i] && all[|app|] == add;
      assert le(app[k], app[i]) && !le(app[k], add);
      assert le(app[i], add) || le(add, app[i]);
    }
    var s := Inserted(app, k, add);
    forall i, j | 0 <= i < j < |s| ensures cmp(s[i].data, s[j].data) <= 0 {
      assert i != k ==> s[i] == app[if i < k then i else i - 1];
      assert j != k ==> s[j] == app[if j < k then j else j - 1];
    }
  }

  lemma AppAlone(app: seq<Elt>, head: Elt?, tail: Elt?, k: nat)
    requires AppOk(app, head, tail) && k < |app|
    ensures app[k].prev == null && app[k].next == null <==> |app| == 1
    ensures head != null && tail != null
  {
  }

  lemma AppNext(app: seq<Elt>, head: Elt?, tail: Elt?)
    requires AppOk(app, head, tail)
    ensures Distinct(app) && NextFrom(app, 0) && head == At(app, 0)
  {
  }

  lemma AppNone(tail: Elt?)
    ensures AppOk([], null, tail)
  {
  }

  lemma AppSorted(o: seq<Elt>, head: Elt?, tail: Elt?, R: set<Elt>)
    requires PointerSort.Linked(o, head, R) && tail == o[|o| - 1] && PointerSort.PrevOf(o, PointerSort.Double, tail)
    ensures AppOk(o, head, tail)
  {
  }

  lemma SortedKeeps(le: (Elt, Elt) -> bool, app: seq<Elt>, o: seq<Elt>)
    requires Distinct(app) && DistinctKeys(app) && StableSortOf(le, app, o)
    ensures Items(o) == Items(app) && |o| == |app| && DistinctKeys(o)
  {
    PermutationKeepsDistinct(app, o);
    forall i, j | 0 <= i < j < |o| ensures o[i].key != o[j].key {
      assert o[i] in app && o[j] in app && o[i] != o[j];
    }
  }

  lemma KeysInserted(app: seq<Elt>, k: nat, add: Elt)
    requires DistinctKeys(app) && NoKey(app, add.key) && k <= |app|
    ensures DistinctKeys(Inserted(app, k, add)) && Items(Inserted(app, k, add)) == Items(app) + {add}
    ensures |Inserted(app, k, add)| == |app| + 1
  {
    var s := Inserted(app, k, add);
    assert app == app[..k] + app[k..];
    assert forall x :: x in s <==> x in app || x == add;
    forall i, j | 0 <= i < j < |s| ensures s[i].key != s[j].key {
      assert i != k ==> s[i] == app[if i < k then i else i - 1];
      assert j != k ==> s[j] == app[if j < k then j else j - 1];
    }
  }

  lemma KeysWithout(app: seq<Elt>, k: nat)
    requires DistinctKeys(app) && Distinct(app) && k < |app|
    ensures DistinctKeys(Without(app, k)) && Items(Without(app, k)) == Items(app) - {app[k]}
    ensures |Without(app, k)| == |app| - 1 && (|app| == 1 ==> Without(app, k) == [])
  {
    var s := Without(app, k);
    DistinctWithout(app, k);
    forall x | x in s ensures x in app {
      var i :| 0 <= i < |s| && s[i] == x;
      assert x == app[if i < k then i else i + 1];
    }
    forall x | x in app && x != app[k] ensures x in s {
      var i :| 0 <= i < |app| && app[i] == x;
      assert x == s[if i < k then i else i - 1];
    }
    forall i, j | 0 <= i < j < |s| ensures s[i].key != s[j].key {
      assert s[i] == app[if i < k then i else i + 1] && s[j] == app[if j < k then j else j + 1];
    }
  }

  lemma OnlyKey(app: seq<Elt>, k: nat)
    requires DistinctKeys(app) && k < |app|
    ensures NoKey(Without(app, k), app[k].key)
  {
  }

  lemma AppEmpty(app: seq<Elt>, head: Elt?, tail: Elt?)
    requires AppOk(app, head, tail) && head == null
    ensures app == []
  {
  }

  lemma AppNonempty(app: seq<Elt>, head: Elt?, tail: Elt?)
    requires AppOk(app, head, tail) && head != null
    ensures app != [] && tail != null && tail in app
  {
  }

  lemma AppSingle(add: Elt)
    requires add.next == null && add.prev == null
    ensures AppOk([add], add, add)
  {
  }

  lemma KeysAppend(app: seq<Elt>, add: Elt)
    requires DistinctKeys(app) && NoKey(app, add.key)
    ensures DistinctKeys(app + [add]) && Items(app + [add]) == Items(app) + {add} && [] + [add] == [add]
  {
    assert forall x :: x in app + [add] <==> x in app || x == add;
  }

  /** Only the chain a key hashes to can hold it, and the stored hash value never hides it. */
  lemma LookupIsExact(hash: Key -> nat, chains: seq<seq<Elt>>, R: set<Elt>, key: Key, t: nat)
    requires Threaded(hash, chains, R) && HashvOk(hash, R) && t == ToBkt(hash, key, |chains|)
    ensures forall x :: (x in chains[t] && x.hashv == hash(key) && x.key == key) <==> (x in R && x.key == key)
  {
    assert OnChain(hash, chains, t, R);
  }
}
