/** What a registry holds, told from the history of registrations and removals alone. */
module Histories {
  import opened Values
  import opened MethodTable
  import opened Registry
  import opened Dispatch

  /** How many registrations there are among these operations: the next ID. */
  function Adds(ops: seq<Op>): nat {
    if ops == [] then 0 else Adds(ops[..|ops| - 1]) + if ops[|ops| - 1].Add? then 1 else 0
  }

  ghost predicate AddOf(o: Op, n: Name) { o.Add? && o.name == n }

  /** At `i` the name is registered for the first time since it was last removed, and it is not removed
      after that. */
  ghost predicate MadeAt(ops: seq<Op>, n: Name, i: nat) {
    && i < |ops| && AddOf(ops[i], n)
    && (forall j :: i <= j < |ops| ==> ops[j] != Drop(n))
    && forall j :: 0 <= j < i && AddOf(ops[j], n) ==> exists k :: j < k < i && ops[k] == Drop(n)
  }

  /** The entry that a registration at `i` makes: its own signature, and as its ID the number of
      registrations before it. */
  function EntryOf(ops: seq<Op>, i: nat): Method
    requires i < |ops| && ops[i].Add?
  {
    Method(ops[i].name, Adds(ops[..i]), ops[i].params, ops[i].ret)
  }

  lemma {:induction false} RunSnoc(r: Registry, ops: seq<Op>, o: Op)
    requires Legal(r, ops + [o])
    ensures Legal(r, ops) && Legal(Run(r, ops), [o]) && Run(r, ops + [o]) == Run(Run(r, ops), [o])
    decreases |ops|
  {
    if ops == [] {
      assert ops + [o] == [o];
    } else {
      assert (ops + [o])[1..] == ops[1..] + [o] && (ops + [o])[0] == ops[0];
      match ops[0]
      case Add(n, ps, t) => RunSnoc(Register(r, n, ps, t), ops[1..], o);
      case Drop(n) => RunSnoc(Remove(r, n), ops[1..], o);
    }
  }

  function Do(r: Registry, o: Op): Registry
    requires o.Drop? ==> o.name in r.methods
  {
    if o.Add? then Register(r, o.name, o.params, o.ret) else Remove(r, o.name)
  }

  lemma RunOne(r: Registry, o: Op)
    requires Legal(r, [o])
    ensures (o.Drop? ==> o.name in r.methods) && Run(r, [o]) == Do(r, o)
  {
    assert [o][1..] == [];
  }

  /** The registry after the operations up to the last, and what the last one does to it. */
  lemma RunLastOp(ops: seq<Op>) returns (r: Registry)
    requires ops != [] && Legal(EMPTY, ops)
    ensures var init, o := ops[..|ops| - 1], ops[|ops| - 1];
      && Legal(EMPTY, init) && r == Run(EMPTY, init) && (o.Drop? ==> o.name in r.methods)
      && Run(EMPTY, ops) == Do(r, o)
  {
    var init, o := ops[..|ops| - 1], ops[|ops| - 1];
    assert ops == init + [o];
    RunSnoc(EMPTY, init, o);
    r := Run(EMPTY, init);
    RunOne(r, o);
  }

  lemma {:induction false} NextIs(ops: seq<Op>)
    requires Legal(EMPTY, ops)
    ensures Run(EMPTY, ops).next == Adds(ops)
    decreases |ops|
  {
    if ops == [] {
    } else {
      var r := RunLastOp(ops);
      NextIs(ops[..|ops| - 1]);
    }
  }

  lemma MadeOfMore(init: seq<Op>, o: Op, n: Name, i: nat)
    requires i < |init|
    ensures MadeAt(init + [o], n, i) <==> MadeAt(init, n, i) && o != Drop(n)
  {
    var ops := init + [o];
    assert forall j :: 0 <= j < |init| ==> ops[j] == init[j];
    assert ops[|init|] == o;
    if MadeAt(ops, n, i) {
      forall j | 0 <= j < i && AddOf(init[j], n) ensures exists k :: j < k < i && init[k] == Drop(n) {
        assert AddOf(ops[j], n);
        var k :| j < k < i && ops[k] == Drop(n);
        assert init[k] == Drop(n);
      }
    }
    if MadeAt(init, n, i) && o != Drop(n) {
      forall j | 0 <= j < i && AddOf(ops[j], n) ensures exists k :: j < k < i && ops[k] == Drop(n) {
        var k :| j < k < i && init[k] == Drop(n);
        assert ops[k] == Drop(n);
      }
    }
  }

  /** A name that has been made is not made again. */
  lemma MadeBefore(init: seq<Op>, o: Op, n: Name, e: nat)
    requires MadeAt(init, n, e)
    ensures !MadeAt(init + [o], n, |init|)
  {
    assert forall j :: 0 <= j < |init| ==> (init + [o])[j] == init[j];
  }

  /** A name that nobody has made is made by its registration. */
  lemma MadeNow(init: seq<Op>, o: Op, n: Name)
    requires AddOf(o, n) && forall i: nat :: !MadeAt(init, n, i)
    ensures MadeAt(init + [o], n, |init|)
  {
    var ops := init + [o];
    assert forall j :: 0 <= j < |init| ==> ops[j] == init[j];
    forall j | 0 <= j < |init| && AddOf(ops[j], n) ensures exists k :: j < k < |init| && ops[k] == Drop(n) {
      DropAfter(init, n, j);
    }
  }

  lemma {:induction false} DropAfter(ops: seq<Op>, n: Name, j: nat)
    requires j < |ops| && AddOf(ops[j], n) && forall i: nat :: !MadeAt(ops, n, i)
    ensures exists k :: j < k < |ops| && ops[k] == Drop(n)
    decreases j
  {
    if forall k :: j < k < |ops| ==> ops[k] != Drop(n) {
      assert !MadeAt(ops, n, j);
      var i :| 0 <= i < j && AddOf(ops[i], n) && forall k :: i < k < j ==> ops[k] != Drop(n);
      DropAfter(ops, n, i);
    }
  }

  /**
   * What is registered after any history: exactly the names that were registered and not removed since,
   * each with the signature of its first registration since it was last removed, and the number of
   * registrations before that as its ID.
   */
  lemma {:induction false} MethodsTold(ops: seq<Op>, n: Name)
    requires Legal(EMPTY, ops)
    ensures n in Run(EMPTY, ops).methods <==> exists i: nat :: MadeAt(ops, n, i)
    ensures forall i: nat :: MadeAt(ops, n, i) ==>
      n in Run(EMPTY, ops).methods && Run(EMPTY, ops).methods[n] == EntryOf(ops, i)
    decreases |ops|
  {
    if ops == [] {
    } else {
      var init, o := ops[..|ops| - 1], ops[|ops| - 1];
      assert ops == init + [o];
      var r := RunLastOp(ops);
      MethodsTold(init, n);
      NextIs(init);
      MethodsTurn(init, o, r, n);
    }
  }

  lemma MethodsTurn(init: seq<Op>, o: Op, r: Registry, n: Name)
    requires r.next == Adds(init) && (o.Drop? ==> o.name in r.methods)
    requires n in r.methods <==> exists i: nat :: MadeAt(init, n, i)
    requires forall i: nat :: MadeAt(init, n, i) ==> n in r.methods && r.methods[n] == EntryOf(init, i)
    ensures n in Do(r, o).methods <==> exists i: nat :: MadeAt(init + [o], n, i)
    ensures forall i: nat :: MadeAt(init + [o], n, i) ==>
      n in Do(r, o).methods && Do(r, o).methods[n] == EntryOf(init + [o], i)
  {
    MadeByLast(init, o, n, n in r.methods);
    EntriesOfMore(init, o);
  }

  /** Who has made a name after one more operation. */
  lemma MadeByLast(init: seq<Op>, o: Op, n: Name, present: bool)
    requires present <==> exists i: nat :: MadeAt(init, n, i)
    ensures forall i: nat :: MadeAt(init + [o], n, i) <==>
      (MadeAt(init, n, i) && o != Drop(n)) || (i == |init| && AddOf(o, n) && !present)
    ensures (exists i: nat :: MadeAt(init + [o], n, i)) <==> (present && o != Drop(n)) || AddOf(o, n)
  {
    var ops := init + [o];
    forall i: nat ensures MadeAt(ops, n, i) <==>
      (MadeAt(init, n, i) && o != Drop(n)) || (i == |init| && AddOf(o, n) && !present)
    {
      if i < |init| {
        MadeOfMore(init, o, n, i);
      } else if present {
        var e: nat :| MadeAt(init, n, e);
        MadeBefore(init, o, n, e);
      } else if AddOf(o, n) {
        MadeNow(init, o, n);
      }
    }
    if present && o != Drop(n) {
      var e: nat :| MadeAt(init, n, e);
      assert MadeAt(ops, n, e);
    } else if AddOf(o, n) {
      assert MadeAt(ops, n, |init|);
    }
  }

  lemma EntriesOfMore(init: seq<Op>, o: Op)
    ensures forall i: nat :: i < |init| && init[i].Add? ==> EntryOf(init + [o], i) == EntryOf(init, i)
    ensures o.Add? ==> EntryOf(init + [o], |init|) == Method(o.name, Adds(init), o.params, o.ret)
  {
    var ops := init + [o];
    forall i: nat | i < |init| && init[i].Add? ensures EntryOf(ops, i) == EntryOf(init, i) {
      assert ops[..i] == init[..i];
    }
    assert ops[..|init|] == init;
  }

  // ---- The map of IDs -------------------------------------------------------------

  /** The registration at `i` has made an entry that was removed later on. */
  ghost predicate Erased(ops: seq<Op>, i: nat) {
    i < |ops| && ops[i].Add? &&
    exists d :: i < d < |ops| && ops[d] == Drop(ops[i].name) && MadeAt(ops[..d], ops[i].name, i)
  }

  lemma {:induction false} AddsGrow(ops: seq<Op>, i: nat, j: nat)
    requires i <= j <= |ops|
    ensures Adds(ops[..i]) <= Adds(ops[..j])
    ensures i < j && ops[i].Add? ==> Adds(ops[..i]) < Adds(ops[..j])
    decreases j
  {
    if i == j {
    } else {
      AddsGrow(ops, i, j - 1);
      assert ops[..j][..j - 1] == ops[..j - 1];
    }
  }

  /** Different registrations get different IDs. */
  lemma IdsApart(ops: seq<Op>, i: nat, j: nat)
    requires i < |ops| && j < |ops| && ops[i].Add? && ops[j].Add?
    ensures Adds(ops[..i]) == Adds(ops[..j]) <==> i == j
  {
    if i < j { AddsGrow(ops, i, j); } else if j < i { AddsGrow(ops, j, i); }
  }

  lemma ErasedOfMore(init: seq<Op>, o: Op, i: nat)
    requires i < |init| && init[i].Add?
    ensures Erased(init + [o], i) <==> Erased(init, i) || (o == Drop(init[i].name) && MadeAt(init, init[i].name, i))
  {
    var ops := init + [o];
    assert forall d :: 0 <= d <= |init| ==> ops[..d] == init[..d];
    if Erased(init, i) {
      var d :| i < d < |init| && init[d] == Drop(init[i].name) && MadeAt(init[..d], init[i].name, i);
      assert ops[d] == init[d];
    }
    if o == Drop(init[i].name) && MadeAt(init, init[i].name, i) {
      assert init[..|init|] == init;
      assert ops[|init|] == o && MadeAt(ops[..|init|], init[i].name, i);
    }
    if Erased(ops, i) && !Erased(init, i) {
      var d :| i < d < |ops| && ops[d] == Drop(ops[i].name) && MadeAt(ops[..d], ops[i].name, i);
      assert d == |init| && init[..|init|] == init;
    }
  }

  /** The ID of the registration at `i`, and the entry that it leads to: that of the name at that time. */
  ghost predicate IdTold(ops: seq<Op>, ids: map<nat, Method>, i: nat)
    requires i < |ops| && ops[i].Add?
  {
    var k := Adds(ops[..i]);
    && (k in ids <==> !Erased(ops, i))
    && (k in ids ==> exists e: nat :: e < |ops| && MadeAt(ops[..i + 1], ops[i].name, e) && ids[k] == EntryOf(ops, e))
  }

  /**
   * The map of IDs after any history: every registration has given out an ID, in order; the ID is gone if
   * and only if the registration had made an entry that was removed; and else it leads to the entry that
   * the name had at that time.
   */
  lemma {:induction false} IdsTold(ops: seq<Op>, i: nat)
    requires Legal(EMPTY, ops) && i < |ops| && ops[i].Add?
    ensures IdTold(ops, Run(EMPTY, ops).ids, i)
    decreases |ops|
  {
    var init, o := ops[..|ops| - 1], ops[|ops| - 1];
    assert ops == init + [o];
    var r := RunLastOp(ops);
    NextIs(init);
    if i == |init| {
      LastIdTold(init, o, r);
    } else {
      IdsTold(init, i);
      IdLeft(init, o, r, i);
      EarlierIdTold(init, o, r.ids, Do(r, o).ids, i);
    }
  }

  lemma LastIdTold(init: seq<Op>, o: Op, r: Registry)
    requires Legal(EMPTY, init) && r == Run(EMPTY, init) && o.Add?
    ensures IdTold(init + [o], Do(r, o).ids, |init|)
  {
    var ops := init + [o];
    assert ops[..|init|] == init && ops[..|init| + 1] == ops;
    NextIs(init);
    var e := NewEntry(init, o, r);
  }

  /** The entry that a new ID leads to: the one of that name, or else a new one. */
  lemma NewEntry(init: seq<Op>, o: Op, r: Registry) returns (e: nat)
    requires Legal(EMPTY, init) && r == Run(EMPTY, init) && r.next == Adds(init) && o.Add?
    ensures e <= |init| && MadeAt(init + [o], o.name, e) && Do(r, o).ids[r.next] == EntryOf(init + [o], e)
  {
    MethodsTold(init, o.name);
    MadeByLast(init, o, o.name, o.name in r.methods);
    EntriesOfMore(init, o);
    if o.name in r.methods {
      e :| MadeAt(init, o.name, e);
    } else {
      e := |init|;
    }
  }

  /** Removing a name takes the ID of the registration that has made its entry. */
  lemma DropTakes(init: seq<Op>, n: Name, r: Registry, i: nat)
    requires Legal(EMPTY, init) && r == Run(EMPTY, init) && n in r.methods && i < |init| && init[i].Add?
    ensures Adds(init[..i]) == r.methods[n].id <==> init[i].name == n && MadeAt(init, n, i)
  {
    MethodsTold(init, n);
    var e: nat :| MadeAt(init, n, e);
    IdsApart(init, i, e);
  }

  /** Which IDs are left after one more operation. */
  lemma IdLeft(init: seq<Op>, o: Op, r: Registry, i: nat)
    requires Legal(EMPTY, init) && r == Run(EMPTY, init) && (o.Drop? ==> o.name in r.methods)
    requires i < |init| && init[i].Add?
    ensures var k := Adds(init[..i]);
      && (k in Do(r, o).ids <==> k in r.ids && !(o == Drop(init[i].name) && MadeAt(init, init[i].name, i)))
      && (k in Do(r, o).ids ==> Do(r, o).ids[k] == r.ids[k])
  {
    NextIs(init);
    AddsGrow(init, i, |init|);
    assert init[..|init|] == init;
    if o.Drop? { DropTakes(init, o.name, r, i); }
  }

  lemma EarlierIdTold(init: seq<Op>, o: Op, ids: map<nat, Method>, ids': map<nat, Method>, i: nat)
    requires i < |init| && init[i].Add? && IdTold(init, ids, i)
    requires var k := Adds(init[..i]);
      && (k in ids' <==> k in ids && !(o == Drop(init[i].name) && MadeAt(init, init[i].name, i)))
      && (k in ids' ==> ids'[k] == ids[k])
    ensures IdTold(init + [o], ids', i)
  {
    var ops, k := init + [o], Adds(init[..i]);
    ErasedOfMore(init, o, i);
    assert ops[..i] == init[..i] && ops[..i + 1] == init[..i + 1];
    if k in ids' {
      var e: nat :| e < |init| && MadeAt(init[..i + 1], init[i].name, e) && ids[k] == EntryOf(init, e);
      assert ops[..e] == init[..e];
      assert EntryOf(ops, e) == EntryOf(init, e);
    }
  }

  /** The history of a server or a client begins with the registration of nymphsync. */
  lemma FromStart(ops: seq<Op>)
    requires Legal(Start(), ops)
    ensures var all := [Add(SYNC, [], TYPE_STRING)] + ops; Legal(EMPTY, all) && Run(EMPTY, all) == Run(Start(), ops)
  {
    assert ([Add(SYNC, [], TYPE_STRING)] + ops)[1..] == ops;
  }
}
