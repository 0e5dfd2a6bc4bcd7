/** The two maps of registered methods, kept alike on the server and on the client, and the
    agreement of the IDs that the two sides give to a method. */
module Registry {
  import opened Values
  import opened MethodTable

  /** `methods` by name and `ids` by ID. An ID is mapped to a pointer to an entry of `methods`;
      here it is the method pointed to, whose own ID tells one entry from every other. */
  datatype Registry = Registry(methods: map<Name, Method>, ids: map<nat, Method>, next: nat)

  const EMPTY := Registry(map[], map[], 0)

  /** registerMethod and addMethod: a present name keeps its entry, and the new ID points to that. */
  function Register(r: Registry, name: Name, params: seq<TypeCode>, ret: TypeCode): Registry {
    var m := if name in r.methods then r.methods[name] else Method(name, r.next, params, ret);
    Registry(r.methods[name := m], r.ids[r.next := m], r.next + 1)
  }

  /** removeMethod, for a present name. */
  function Remove(r: Registry, name: Name): Registry
    requires name in r.methods
  {
    Registry(r.methods - {name}, r.ids - {r.methods[name].id}, r.next)
  }

  // ---- Histories ------------------------------------------------------------------

  datatype Op = Add(name: Name, params: seq<TypeCode>, ret: TypeCode) | Drop(name: Name)

  /** Only methods that are present are removed. */
  predicate Legal(r: Registry, ops: seq<Op>)
    decreases |ops|
  {
    ops == [] || match ops[0]
      case Add(n, ps, t) => Legal(Register(r, n, ps, t), ops[1..])
      case Drop(n) => n in r.methods && Legal(Remove(r, n), ops[1..])
  }

  function Run(r: Registry, ops: seq<Op>): Registry
    requires Legal(r, ops)
    decreases |ops|
  {
    if ops == [] then r
    else match ops[0]
      case Add(n, ps, t) => Run(Register(r, n, ps, t), ops[1..])
      case Drop(n) => Run(Remove(r, n), ops[1..])
  }

  /** No name is registered while it is present. */
  predicate NoDuplicates(r: Registry, ops: seq<Op>)
    requires Legal(r, ops)
    decreases |ops|
  {
    ops == [] || match ops[0]
      case Add(n, ps, t) => n !in r.methods && NoDuplicates(Register(r, n, ps, t), ops[1..])
      case Drop(n) => NoDuplicates(Remove(r, n), ops[1..])
  }

  /** What every history keeps: entries carry their name and an ID given out before, under which
      they can be found. */
  ghost predicate Sound(r: Registry) {
    && (forall n :: n in r.methods ==> r.methods[n].name == n && r.methods[n].id < r.next)
    && (forall n :: n in r.methods ==> r.methods[n].id in r.ids && r.ids[r.methods[n].id] == r.methods[n])
    && (forall k :: k in r.ids ==> k < r.next && r.ids[k].id <= k)
  }

  /** The entry that the ID was given for is still there; if it is not, the pointer dangles, and
      nothing is known of what it leads to. */
  predicate LiveAt(r: Registry, k: nat)
    requires k in r.ids
  {
    r.ids[k].name in r.methods && r.methods[r.ids[k].name] == r.ids[k]
  }

  /** No ID points to an entry that has been erased. */
  ghost predicate Live(r: Registry) {
    forall k :: k in r.ids ==> LiveAt(r, k)
  }

  /** No other ID leads to the entry of `n` than its own. */
  ghost predicate Alone(r: Registry, n: Name)
    requires n in r.methods
  {
    forall k :: k in r.ids && r.ids[k] == r.methods[n] ==> k == r.methods[n].id
  }

  /** Every ID leads to the entry that carries it. */
  ghost predicate Agree(r: Registry) {
    forall k :: k in r.ids ==> r.ids[k].id == k
  }

  lemma RegisterSound(r: Registry, n: Name, ps: seq<TypeCode>, t: TypeCode)
    requires Sound(r)
    ensures Sound(Register(r, n, ps, t))
    ensures Live(r) ==> Live(Register(r, n, ps, t))
    ensures Agree(Register(r, n, ps, t)) <==> Agree(r) && n !in r.methods
  {
    var r' := Register(r, n, ps, t);
    assert forall k :: k in r.ids ==> k in r'.ids && r'.ids[k] == r.ids[k];
    assert r.next in r'.ids;
  }

  lemma RemoveSound(r: Registry, n: Name)
    requires Sound(r) && n in r.methods
    ensures Sound(Remove(r, n))
    ensures Agree(r) ==> Agree(Remove(r, n))
    ensures Agree(r) && Live(r) ==> Live(Remove(r, n))
    ensures !Agree(r) ==> !Agree(Remove(r, n))
  {
    var r' := Remove(r, n);
    if !Agree(r) {
      var k :| k in r.ids && r.ids[k].id != k;
      assert k in r'.ids && r'.ids[k] == r.ids[k];
    }
  }

  /**
   * After any history, the ID map and the name map are inverse to each other exactly if no name
   * was registered while it was present.
   */
  lemma {:induction false} AgreeIff(r: Registry, ops: seq<Op>)
    requires Sound(r) && Legal(r, ops)
    ensures Sound(Run(r, ops))
    ensures Agree(Run(r, ops)) <==> Agree(r) && NoDuplicates(r, ops)
    ensures Agree(Run(r, ops)) && Live(r) ==> Live(Run(r, ops))
    ensures r.next <= Run(r, ops).next
    decreases |ops|
  {
    if ops == [] {
    } else {
      match ops[0]
      case Add(n, ps, t) =>
        RegisterSound(r, n, ps, t);
        AgreeIff(Register(r, n, ps, t), ops[1..]);
      case Drop(n) =>
        RemoveSound(r, n);
        AgreeIff(Remove(r, n), ops[1..]);
    }
  }

  // ---- Dangling IDs ---------------------------------------------------------------

  /** Every removal meets an entry that no other ID leads to. */
  ghost predicate DropsAlone(r: Registry, ops: seq<Op>)
    requires Legal(r, ops)
    decreases |ops|
  {
    ops == [] || match ops[0]
      case Add(n, ps, t) => DropsAlone(Register(r, n, ps, t), ops[1..])
      case Drop(n) => Alone(r, n) && DropsAlone(Remove(r, n), ops[1..])
  }

  lemma RegisterLive(r: Registry, n: Name, ps: seq<TypeCode>, t: TypeCode)
    requires Sound(r)
    ensures Live(Register(r, n, ps, t)) <==> Live(r)
  {
    var r' := Register(r, n, ps, t);
    if !Live(r) {
      var k :| k in r.ids && !LiveAt(r, k);
      assert k in r'.ids && !LiveAt(r', k);
    }
  }

  lemma RemoveLive(r: Registry, n: Name)
    requires Sound(r) && n in r.methods
    ensures Live(Remove(r, n)) <==> Live(r) && Alone(r, n)
  {
    var r' := Remove(r, n);
    if !Live(r) {
      var k :| k in r.ids && !LiveAt(r, k);
      assert k in r'.ids && !LiveAt(r', k);
    } else if !Alone(r, n) {
      var k :| k in r.ids && r.ids[k] == r.methods[n] && k != r.methods[n].id;
      assert k in r'.ids && !LiveAt(r', k);
    }
  }

  /** After any history, no ID dangles if and only if every removal met an entry that no other ID led
      to. An ID that dangles does so for ever. */
  lemma {:induction false} LiveIff(r: Registry, ops: seq<Op>)
    requires Sound(r) && Legal(r, ops)
    ensures Live(Run(r, ops)) <==> Live(r) && DropsAlone(r, ops)
    decreases |ops|
  {
    if ops == [] {
    } else {
      match ops[0]
      case Add(n, ps, t) =>
        RegisterSound(r, n, ps, t);
        RegisterLive(r, n, ps, t);
        LiveIff(Register(r, n, ps, t), ops[1..]);
      case Drop(n) =>
        RemoveSound(r, n);
        RemoveLive(r, n);
        LiveIff(Remove(r, n), ops[1..]);
    }
  }

  /** The same of the history alone: with these names present, and those of them doubled that were
      registered while present since they were last absent, no doubled name is ever removed. */
  predicate Clean(present: set<Name>, doubled: set<Name>, ops: seq<Op>)
    decreases |ops|
  {
    ops == [] || match ops[0]
      case Add(n, _, _) =>
        if n in present then Clean(present, doubled + {n}, ops[1..]) else Clean(present + {n}, doubled, ops[1..])
      case Drop(n) => n !in doubled && Clean(present - {n}, doubled, ops[1..])
  }

  ghost predicate AreDoubled(r: Registry, doubled: set<Name>) {
    forall n :: n in doubled <==> n in r.methods && !Alone(r, n)
  }

  lemma RegisterDoubled(r: Registry, doubled: set<Name>, n: Name, ps: seq<TypeCode>, t: TypeCode)
    requires Sound(r) && AreDoubled(r, doubled)
    ensures AreDoubled(Register(r, n, ps, t), if n in r.methods then doubled + {n} else doubled)
  {
    var r' := Register(r, n, ps, t);
    assert r'.ids[r.next] == r'.methods[n];
    forall m | m in r.methods && m != n ensures Alone(r', m) <==> Alone(r, m) {
      assert forall k :: k in r.ids ==> k in r'.ids && r'.ids[k] == r.ids[k];
    }
  }

  lemma RemoveDoubled(r: Registry, doubled: set<Name>, n: Name)
    requires Sound(r) && AreDoubled(r, doubled) && n in r.methods && n !in doubled
    ensures AreDoubled(Remove(r, n), doubled)
  {
    var r' := Remove(r, n);
    forall m | m in r'.methods ensures Alone(r', m) <==> Alone(r, m) {
      assert r'.methods[m] == r.methods[m] && r.methods[m].name != r.methods[n].name;
      forall k | k in r.ids && r.ids[k] == r.methods[m] ensures k in r'.ids && r'.ids[k] == r.ids[k] {
        assert r.ids[r.methods[n].id] == r.methods[n];
      }
    }
  }

  lemma {:induction false} CleanIff(r: Registry, doubled: set<Name>, ops: seq<Op>)
    requires Sound(r) && AreDoubled(r, doubled) && Legal(r, ops)
    ensures DropsAlone(r, ops) <==> Clean(r.methods.Keys, doubled, ops)
    decreases |ops|
  {
    if ops == [] {
    } else {
      match ops[0]
      case Add(n, ps, t) =>
        RegisterSound(r, n, ps, t);
        RegisterDoubled(r, doubled, n, ps, t);
        assert Register(r, n, ps, t).methods.Keys == if n in r.methods then r.methods.Keys else r.methods.Keys + {n};
        CleanIff(Register(r, n, ps, t), if n in r.methods then doubled + {n} else doubled, ops[1..]);
      case Drop(n) =>
        if n !in doubled {
          RemoveSound(r, n);
          RemoveDoubled(r, doubled, n);
          assert Remove(r, n).methods.Keys == r.methods.Keys - {n};
          CleanIff(Remove(r, n), doubled, ops[1..]);
        }
    }
  }

  /** An ID is never given out again: one that is not in use stays out of use below the counter, and
      one that is in use leads where it did for as long as it does not dangle. */
  lemma {:induction false} IdsNeverReused(r: Registry, ops: seq<Op>, k: nat)
    requires Sound(r) && Legal(r, ops) && k < r.next
    ensures var r' := Run(r, ops);
      k in r'.ids ==> k in r.ids && (LiveAt(r', k) ==> LiveAt(r, k) && r'.ids[k] == r.ids[k])
    decreases |ops|
  {
    if ops == [] {
    } else {
      match ops[0]
      case Add(n, ps, t) =>
        RegisterSound(r, n, ps, t);
        IdsNeverReused(Register(r, n, ps, t), ops[1..], k);
      case Drop(n) =>
        RemoveSound(r, n);
        IdsNeverReused(Remove(r, n), ops[1..], k);
    }
  }

  // ---- The table of a server ------------------------------------------------------

  /** An ID of the server and the method that it leads to. */
  datatype Row = Row(key: nat, m: Method)

  /** The entries of the ID map below `hi`, in ascending order, as a std::map is iterated. */
  function Rows(r: Registry, hi: nat): seq<Row> {
    if hi == 0 then []
    else Rows(r, hi - 1) + if hi - 1 in r.ids then [Row(hi - 1, r.ids[hi - 1])] else []
  }

  function AllRows(r: Registry): seq<Row> { Rows(r, r.next) }

  function MethodsOf(rows: seq<Row>): (ms: seq<Method>)
    ensures |ms| == |rows| && forall i :: 0 <= i < |ms| ==> ms[i] == rows[i].m
  {
    if rows == [] then [] else [rows[0].m] + MethodsOf(rows[1..])
  }

  ghost predicate Listed(rows: seq<Row>, k: nat) {
    exists i :: 0 <= i < |rows| && rows[i].key == k
  }

  /** The rows are the entries of the ID map, in ascending order. */
  lemma {:induction false} RowsAre(r: Registry, hi: nat)
    ensures forall i, j :: 0 <= i < j < |Rows(r, hi)| ==> Rows(r, hi)[i].key < Rows(r, hi)[j].key
    ensures forall i :: 0 <= i < |Rows(r, hi)| ==>
      var w := Rows(r, hi)[i]; w.key < hi && w.key in r.ids && w.m == r.ids[w.key]
    ensures |Rows(r, hi)| <= hi
  {
    if hi == 0 {
    } else {
      RowsAre(r, hi - 1);
    }
  }

  /** No entry of the ID map is left out. */
  lemma {:induction false} RowsList(r: Registry, hi: nat, k: nat)
    requires k < hi && k in r.ids
    ensures Listed(Rows(r, hi), k)
  {
    var rows, prev := Rows(r, hi), Rows(r, hi - 1);
    if k < hi - 1 {
      RowsList(r, hi - 1, k);
      var i :| 0 <= i < |prev| && prev[i].key == k;
      assert rows[i].key == k;
    } else {
      assert rows[|prev|].key == k;
    }
  }

  /** The count that is printed ahead of the records is their number. */
  lemma {:induction false} RowCount(r: Registry, hi: nat)
    ensures |Rows(r, hi)| == |set k | 0 <= k < hi && k in r.ids|
  {
    var s := set k | 0 <= k < hi && k in r.ids;
    if hi > 0 {
      RowCount(r, hi - 1);
      var t := set k | 0 <= k < hi - 1 && k in r.ids;
      assert s == if hi - 1 in r.ids then t + {hi - 1} else t;
    } else {
      assert s == {};
    }
  }

  /** What a client can rely on in a server's table: see `ServerRows`. */
  ghost predicate ServerTable(rows: seq<Row>) {
    && rows != [] && rows[0].key == 0 && rows[0].m.name == SYNC
    && (forall i, j :: 0 <= i < j < |rows| ==> rows[i].key < rows[j].key)
    && (forall i :: 0 <= i < |rows| ==> (rows[i].m.id == 0 <==> rows[i].m.name == SYNC))
    && (forall i, j :: 0 <= i < |rows| && 0 <= j < |rows| && rows[i].m.name == rows[j].m.name ==>
          rows[i].m == rows[j].m)
  }

  /** The entry of nymphsync, as it is registered ahead of all others. */
  const SYNC_METHOD := Method(SYNC, 0, [], TYPE_STRING)

  /** nymphsync was registered first and is still there. */
  ghost predicate SyncFirst(r: Registry) {
    SYNC in r.methods && r.methods[SYNC] == SYNC_METHOD
  }

  lemma ServerRows(r: Registry)
    requires Sound(r) && Live(r) && SyncFirst(r)
    ensures ServerTable(AllRows(r))
  {
    RowsAre(r, r.next);
    var rows := AllRows(r);
    RowsList(r, r.next, 0);
    var z :| 0 <= z < |rows| && rows[z].key == 0;
    assert rows[0].key <= rows[z].key;
    forall i | 0 <= i < |rows| ensures rows[i].m.id == 0 <==> rows[i].m.name == SYNC {
      assert r.methods[rows[i].m.name] == rows[i].m;
      assert r.ids[rows[i].m.id] == rows[i].m;
    }
  }
}
