/**
 Whole histories of a uthash table. A table driven by any legal sequence of adds, deletes
 and replaces holds, in application order, exactly the elements whose key no later
 operation touched; and HASH_FIND answers from that list.
 */
module UthashRuns {
  import opened Sequences
  import opened Elements
  import opened MergeSort
  import opened Utlist
  import opened Uthash

  datatype Op =
    | OpAdd(e: Elt)
    | OpReplace(e: Elt)
    | OpDelete(key: Key)
  {
    function Key(): Key {
      if OpDelete? then key else e.key
    }
  }

  ghost predicate Touches(ops: seq<Op>, key: Key) {
    exists i :: 0 <= i < |ops| && ops[i].Key() == key
  }

  /** The elements of app whose key no operation of ops mentions. */
  ghost function Untouched(app: seq<Elt>, ops: seq<Op>): seq<Elt> {
    if app == [] then []
    else (if Touches(ops, app[0].key) then [] else [app[0]]) + Untouched(app[1..], ops)
  }

  /** What a history should leave: each inserted element whose key is not touched again, in order. */
  ghost function Survivors(ops: seq<Op>): seq<Elt> {
    if ops == [] then []
    else (if ops[0].OpDelete? || Touches(ops[1..], ops[0].Key()) then [] else [ops[0].e]) + Survivors(ops[1..])
  }

  /** One operation on the list: drop the element with its key, then append the new one if any. */
  ghost function Apply(app: seq<Elt>, op: Op): seq<Elt> {
    Untouched(app, [op]) + if op.OpDelete? then [] else [op.e]
  }

  /** Callers never add a key that is present; replace and delete are always allowed. */
  ghost predicate Legal(app: seq<Elt>, ops: seq<Op>)
    decreases |ops|
  {
    ops == [] || ((ops[0].OpAdd? ==> NoKey(app, ops[0].e.key)) && Legal(Apply(app, ops[0]), ops[1..]))
  }

  ghost function Run(app: seq<Elt>, ops: seq<Op>): seq<Elt>
    decreases |ops|
  {
    if ops == [] then app else Run(Apply(app, ops[0]), ops[1..])
  }

  lemma TouchesCons(ops: seq<Op>, key: Key)
    requires ops != []
    ensures Touches(ops, key) <==> ops[0].Key() == key || Touches(ops[1..], key)
  {
    if Touches(ops[1..], key) {
      var i :| 0 <= i < |ops[1..]| && ops[1..][i].Key() == key;
      assert ops[i + 1].Key() == key;
    }
    if Touches(ops, key) && ops[0].Key() != key {
      var i :| 0 <= i < |ops| && ops[i].Key() == key;
      assert ops[1..][i - 1].Key() == key;
    }
  }

  lemma {:induction false} UntouchedTwice(app: seq<Elt>, ops: seq<Op>)
    requires ops != []
    ensures Untouched(Untouched(app, [ops[0]]), ops[1..]) == Untouched(app, ops)
    decreases |app|
  {
    if app != [] {
      UntouchedTwice(app[1..], ops);
      TouchesCons(ops, app[0].key);
      TouchesCons([ops[0]], app[0].key);
      if !Touches([ops[0]], app[0].key) {
        UntouchedConcat([app[0]], Untouched(app[1..], [ops[0]]), ops[1..]);
        assert Untouched([app[0]], ops[1..]) == if Touches(ops[1..], app[0].key) then [] else [app[0]];
      } else {
        assert Untouched(app, [ops[0]]) == Untouched(app[1..], [ops[0]]);
      }
    }
  }

  lemma {:induction false} UntouchedConcat(a: seq<Elt>, b: seq<Elt>, ops: seq<Op>)
    ensures Untouched(a + b, ops) == Untouched(a, ops) + Untouched(b, ops)
    decreases |a|
  {
    if a == [] {
      assert a + b == b;
    } else {
      assert (a + b)[1..] == a[1..] + b;
      UntouchedConcat(a[1..], b, ops);
    }
  }

  lemma UntouchedOne(e: Elt, ops: seq<Op>)
    ensures Untouched([e], ops) == if Touches(ops, e.key) then [] else [e]
  {
    assert Untouched([e][1..], ops) == [];
  }

  /** The first operation's own contribution to what the rest of the history leaves. */
  lemma UntouchedApply(app: seq<Elt>, op: Op, rest: seq<Op>)
    ensures Untouched(Apply(app, op), rest)
         == Untouched(app, [op] + rest) + if op.OpDelete? || Touches(rest, op.Key()) then [] else [op.e]
  {
    hide Touches;
    assert ([op] + rest)[1..] == rest;
    UntouchedTwice(app, [op] + rest);
    if op.OpDelete? {
      assert Apply(app, op) == Untouched(app, [op]);
    } else {
      UntouchedConcat(Untouched(app, [op]), [op.e], rest);
      UntouchedOne(op.e, rest);
    }
  }

  /** Running a history is keeping what it does not touch, then its survivors. */
  lemma {:induction false} RunSplits(app: seq<Elt>, ops: seq<Op>)
    ensures Run(app, ops) == Untouched(app, ops) + Survivors(ops)
    decreases |ops|
  {
    hide Touches, Untouched, Apply;
    if ops == [] {
      UntouchedByNothing(app);
    } else {
      assert ops == [ops[0]] + ops[1..];
      RunSplits(Apply(app, ops[0]), ops[1..]);
      UntouchedApply(app, ops[0], ops[1..]);
    }
  }

  lemma {:induction false} UntouchedByNothing(app: seq<Elt>)
    ensures Untouched(app, []) == app
  {
    if app != [] {
      UntouchedByNothing(app[1..]);
      assert app == [app[0]] + app[1..];
    }
  }

  /** From an empty table, the application order is the insertion order of the survivors. */
  lemma HistoryLeavesSurvivors(ops: seq<Op>)
    ensures Run([], ops) == Survivors(ops)
  {
    RunSplits([], ops);
  }

  /** An element survives exactly when some operation inserted it and no later one has its key. */
  lemma {:induction false} SurvivorIffLastWriter(ops: seq<Op>, x: Elt)
    ensures x in Survivors(ops) <==>
      exists i :: 0 <= i < |ops| && !ops[i].OpDelete? && ops[i].e == x && !Touches(ops[i + 1..], x.key)
  {
    if ops != [] {
      var rest := ops[1..];
      SurvivorIffLastWriter(rest, x);
      if x in Survivors(rest) {
        var i :| 0 <= i < |rest| && !rest[i].OpDelete? && rest[i].e == x && !Touches(rest[i + 1..], x.key);
        assert rest[i + 1..] == ops[i + 2..] && rest[i] == ops[i + 1];
      }
      if i :| 0 <= i < |ops| && !ops[i].OpDelete? && ops[i].e == x && !Touches(ops[i + 1..], x.key) && i > 0 {
        assert rest[i - 1 + 1..] == ops[i + 1..] && rest[i - 1] == ops[i];
      }
    }
  }

  /** Taking out the element with a key, when keys are distinct, is Without. */
  lemma {:induction false} UntouchedIsWithout(app: seq<Elt>, op: Op, k: nat)
    requires DistinctKeys(app) && k < |app| && app[k].key == op.Key()
    ensures Untouched(app, [op]) == Without(app, k)
    decreases |app|
  {
    TouchesCons([op], app[0].key);
    if k == 0 {
      UntouchedIfAbsent(app[1..], op);
    } else {
      UntouchedIsWithout(app[1..], op, k - 1);
      assert Without(app, k) == [app[0]] + Without(app[1..], k - 1);
    }
  }

  lemma {:induction false} UntouchedIfAbsent(app: seq<Elt>, op: Op)
    requires NoKey(app, op.Key())
    ensures Untouched(app, [op]) == app
  {
    if app != [] {
      TouchesCons([op], app[0].key);
      UntouchedIfAbsent(app[1..], op);
      assert app == [app[0]] + app[1..];
    }
  }

  /** An uthash table executes any legal history: it ends valid, with the survivors in order. */
  method Execute(t: Table, ops: seq<Op>)
    requires t.Valid() && Legal(t.app, ops)
    modifies t, Items(t.app), set op | op in ops && !op.OpDelete? :: op.e
    ensures t.Valid() && t.app == Run(old(t.app), ops)
  {
    ghost var a0 := t.app;
    ghost var R := Items(t.app) + set op | op in ops && !op.OpDelete? :: op.e;
    for i := 0 to |ops|
      invariant t.Valid() && Legal(t.app, ops[i..])
      invariant Run(t.app, ops[i..]) == Run(a0, ops)
      invariant forall x | x in t.app :: x in R
    {
      hide Touches, Untouched;
      assert ops[i..][0] == ops[i] && ops[i..][1..] == ops[i + 1..];
      Step(t, ops[i]);
    }
  }

  lemma ApplyDelete(app: seq<Elt>, op: Op)
    requires op.OpDelete?
    ensures Apply(app, op) == Untouched(app, [op])
  {
  }

  /** One operation of a history, as a client performs it. */
  method Step(t: Table, op: Op)
    requires t.Valid() && (op.OpAdd? ==> NoKey(t.app, op.e.key))
    modifies t, Items(t.app), if op.OpDelete? then {} else {op.e}
    ensures t.Valid() && t.app == Apply(old(t.app), op)
    ensures forall x | x in t.app :: x in old(t.app) || (!op.OpDelete? && x == op.e)
  {
    hide Untouched, Touches, Distinct, AppOk, DistinctKeys, Table.Chained;
    match op
    case OpAdd(e) =>
      UntouchedIfAbsent(t.app, op);
      t.Add(e);
    case OpReplace(e) =>
      ghost var app := t.app;
      var r := t.Replace(e);
      if r != null {
        UntouchedIsWithout(app, op, IndexOf(app, r));
      } else {
        UntouchedIfAbsent(app, op);
      }
    case OpDelete(key) =>
      ghost var app := t.app;
      ApplyDelete(app, op);
      var r := t.Find(key);
      if r != null {
        var del: Elt := r;
        UntouchedIsWithout(app, op, IndexOf(app, del));
        t.Delete(del);
      } else {
        UntouchedIfAbsent(app, op);
      }
  }

  // ----- lookups, in histories that also sort -----

  /** Everything a client does to a table between two lookups. */
  datatype Command =
    | Edit(op: Op)
    | AddSorted(e: Elt, cmp: (Data, Data) -> int)
    | SortBy(cmp: (Data, Data) -> int)
  {
    /** The command adds, replaces or deletes the key. */
    predicate Concerns(key: Key) {
      match this
      case Edit(op) => op.Key() == key
      case AddSorted(e, _) => e.key == key
      case SortBy(_) => false
    }

    ghost predicate Inserts(x: Elt) {
      match this
      case Edit(op) => !op.OpDelete? && op.e == x
      case AddSorted(e, _) => e == x
      case SortBy(_) => false
    }
  }

  ghost predicate TotalCmp(cmp: (Data, Data) -> int) {
    && (forall a, b :: cmp(a, b) <= 0 || cmp(b, a) <= 0)
    && (forall a, b, c :: cmp(a, b) <= 0 && cmp(b, c) <= 0 ==> cmp(a, c) <= 0)
  }

  /** Callers never add a key that is present, and sort by a total preorder. */
  ghost predicate Allowed(held: set<Elt>, c: Command) {
    match c
    case Edit(op) => op.OpAdd? ==> forall x | x in held :: x.key != op.e.key
    case AddSorted(e, cmp) => forall x | x in held :: x.key != e.key
    case SortBy(cmp) => TotalCmp(cmp)
  }

  ghost function Held(held: set<Elt>, c: Command): set<Elt> {
    (set x | x in held && !c.Concerns(x.key))
    + (match c
       case Edit(op) => if op.OpDelete? then {} else {op.e}
       case AddSorted(e, _) => {e}
       case SortBy(_) => {})
  }

  ghost function HeldAfter(held: set<Elt>, cs: seq<Command>): set<Elt>
    decreases |cs|
  {
    if cs == [] then held else HeldAfter(Held(held, cs[0]), cs[1..])
  }

  ghost predicate AllAllowed(held: set<Elt>, cs: seq<Command>)
    decreases |cs|
  {
    cs == [] || (Allowed(held, cs[0]) && AllAllowed(Held(held, cs[0]), cs[1..]))
  }

  lemma {:induction false} UntouchedItems(app: seq<Elt>, op: Op, x: Elt)
    ensures x in Untouched(app, [op]) <==> x in app && x.key != op.Key()
  {
    if app != [] {
      UntouchedItems(app[1..], op, x);
      TouchesCons([op], app[0].key);
    }
  }

  lemma ApplyItems(app: seq<Elt>, op: Op)
    ensures Items(Apply(app, op)) == Held(Items(app), Edit(op))
  {
    var kept := Untouched(app, [op]);
    forall x: Elt ensures x in kept <==> x in app && x.key != op.Key() {
      UntouchedItems(app, op, x);
    }
    assert forall x: Elt :: x in Apply(app, op) <==> x in kept || (!op.OpDelete? && x == op.e);
    assert Items(Apply(app, op)) == Items(kept) + if op.OpDelete? then {} else {op.e};
    assert Items(kept) == set x | x in Items(app) && x.key != op.Key();
  }

  lemma InsertedItems(app: seq<Elt>, k: nat, e: Elt)
    requires k <= |app|
    ensures Items(Inserted(app, k, e)) == Items(app) + {e}
  {
    assert app == app[..k] + app[k..];
  }

  method Perform(t: Table, c: Command)
    requires t.Valid() && Allowed(Items(t.app), c)
    modifies t, Items(t.app), set x | c.Inserts(x)
    ensures t.Valid() && Items(t.app) == Held(old(Items(t.app)), c)
  {
    hide Distinct, AppOk, DistinctKeys, Table.Chained, Inserted, StableSortOf, TotalPreorderOn, Apply;
    ghost var app := t.app;
    match c
    case Edit(op) =>
      ApplyItems(app, op);
      Step(t, op);
    case AddSorted(e, cmp) =>
      ghost var k := t.AddInorder(e, cmp);
      InsertedItems(app, k, e);
    case SortBy(cmp) =>
      TotalOn(cmp, app);
      t.Sort(cmp);
  }

  lemma TotalOn(cmp: (Data, Data) -> int, app: seq<Elt>)
    requires TotalCmp(cmp)
    ensures TotalPreorderOn(ByCmp(cmp), app)
  {
  }

  /** A history: the table ends valid, holding exactly what the commands leave. */
  method PerformAll(t: Table, cs: seq<Command>)
    requires t.Valid() && AllAllowed(Items(t.app), cs)
    modifies t, Items(t.app), set x, i | 0 <= i < |cs| && cs[i].Inserts(x) :: x
    ensures t.Valid() && Items(t.app) == HeldAfter(old(Items(t.app)), cs)
  {
    ghost var held := Items(t.app);
    ghost var R := held + set x, i | 0 <= i < |cs| && cs[i].Inserts(x) :: x;
    hide Held, Allowed;
    for i := 0 to |cs|
      invariant t.Valid() && AllAllowed(Items(t.app), cs[i..])
      invariant HeldAfter(Items(t.app), cs[i..]) == HeldAfter(held, cs)
      invariant Items(t.app) <= R
    {
      assert cs[i..][0] == cs[i] && cs[i..][1..] == cs[i + 1..];
      ghost var before := Items(t.app);
      Perform(t, cs[i]);
      forall x | x in Items(t.app) ensures x in R { HeldWithin(before, cs[i], x); }
    }
  }

  lemma HeldWithin(held: set<Elt>, c: Command, x: Elt)
    requires x in Held(held, c)
    ensures x in held || c.Inserts(x)
  {
  }

  ghost predicate LastWord(cs: seq<Command>, x: Elt, i: int) {
    && 0 <= i < |cs| && cs[i].Inserts(x)
    && forall j :: i < j < |cs| ==> !cs[j].Concerns(x.key)
  }

  /** What a history leaves: what was held and not concerned, and what was inserted and not concerned later. */
  lemma {:induction false} HeldAfterIff(held: set<Elt>, cs: seq<Command>, x: Elt)
    ensures x in HeldAfter(held, cs)
       <==> (x in held && forall j :: 0 <= j < |cs| ==> !cs[j].Concerns(x.key)) || exists i :: LastWord(cs, x, i)
    decreases |cs|
  {
    if cs != [] {
      var rest := cs[1..];
      HeldAfterIff(Held(held, cs[0]), rest, x);
      assert forall j :: 0 <= j < |rest| ==> rest[j] == cs[j + 1];
      if i :| LastWord(rest, x, i) { assert LastWord(cs, x, i + 1); }
      if i :| LastWord(cs, x, i) && i > 0 { assert LastWord(rest, x, i - 1); }
      if x in Held(held, cs[0]) && !cs[0].Inserts(x) { assert x in held && !cs[0].Concerns(x.key); }
      if (forall j :: 0 <= j < |rest| ==> !rest[j].Concerns(x.key)) && cs[0].Inserts(x) { assert LastWord(cs, x, 0); }
      if LastWord(cs, x, 0) { assert forall j :: 0 <= j < |rest| ==> !rest[j].Concerns(x.key); }
    }
  }

  /**
   HASH_FIND after any history of adds, ordered adds, replaces, deletes and sorts of an empty
   table: it returns an element exactly when its key was added and not since deleted, and that
   element is the last one added under the key.
   */
  method FindAfter(hash: Key -> nat, cs: seq<Command>, key: Key) returns (found: Elt?)
    requires AllAllowed({}, cs)
    modifies set x, i | 0 <= i < |cs| && cs[i].Inserts(x) :: x
    ensures found != null <==> exists x: Elt, i :: x.key == key && LastWord(cs, x, i)
    ensures found != null ==> found.key == key && exists i :: LastWord(cs, found, i)
  {
    var t := new Table(hash);
    assert Items(t.app) == {};
    PerformAll(t, cs);
    found := t.Find(key);
    forall x: Elt ensures x in t.app <==> exists i :: LastWord(cs, x, i) {
      assert x in t.app <==> x in Items(t.app);
      HeldAfterIff({}, cs, x);
    }
  }
}
