/** Synchronisation: the IDs a client counts for itself, and which method a call with them runs. */
module Dispatch {
  import opened Bytes
  import opened Values
  import opened MethodTable
  import opened Registry

  /** The maps of either side before anything else is registered: nymphsync alone, under ID 0. */
  function Start(): Registry { Register(EMPTY, SYNC, [], TYPE_STRING) }

  /** One record: a method that the server printed with ID 0 is skipped, any other is added
      under the client's own next ID. */
  function Learn(c: Registry, m: Method): Registry {
    if m.id == 0 then c else Register(c, m.name, m.params, m.ret)
  }

  /** The client's maps after the first `p` records. */
  function LearnFirst(c: Registry, ms: seq<Method>, p: nat): Registry
    requires p <= |ms|
  {
    if p == 0 then c else Learn(LearnFirst(c, ms, p - 1), ms[p - 1])
  }

  /** The outcome of NymphServerInstance::sync on a received table. */
  datatype SyncOutcome = SyncOutOfBounds | Synced(ok: bool, client: Registry)

  function SyncWith(c: Registry, blob: seq<Byte>): SyncOutcome {
    match ReadTable(blob)
    case TableOutOfBounds => SyncOutOfBounds
    case TableRead(ok, ms, _) => Synced(ok, LearnFirst(c, ms, |ms|))
  }

  lemma {:induction false} LearnFirstOfMore(c: Registry, ms: seq<Method>, m: Method, p: nat)
    requires p <= |ms|
    ensures LearnFirst(c, ms + [m], p) == LearnFirst(c, ms, p)
  {
    if p == 0 {
    } else {
      LearnFirstOfMore(c, ms, m, p - 1);
      assert (ms + [m])[p - 1] == ms[p - 1];
    }
  }

  // ---- What the client ends up with -----------------------------------------------

  /** How many of the first `p` records are not skipped. */
  function Counted(ms: seq<Method>, p: nat): (n: nat)
    requires p <= |ms|
    ensures n <= p
  {
    if p == 0 then 0 else Counted(ms, p - 1) + if ms[p - 1].id == 0 then 0 else 1
  }

  ghost predicate Seen(ms: seq<Method>, p: nat, n: Name) {
    exists j :: 0 <= j < p && j < |ms| && ms[j].name == n
  }

  /** Every other record of the printed table with ID 0 is one of nymphsync. */
  ghost predicate SyncIsZero(ms: seq<Method>) {
    forall i :: 0 <= i < |ms| ==> (ms[i].id == 0 <==> ms[i].name == SYNC)
  }

  /** The entry that the client makes from the record at `i`, if it is the first of its name. */
  ghost predicate Entered(c: Registry, ms: seq<Method>, i: nat)
    requires i < |ms|
  {
    ms[i].name in c.methods && c.methods[ms[i].name] == ms[i].(id := 1 + Counted(ms, i))
  }

  /** What the client has learned from the first `p` records. */
  ghost predicate Learned(c: Registry, ms: seq<Method>, p: nat)
    requires p <= |ms|
  {
    && c.next == 1 + Counted(ms, p)
    && SYNC in c.methods && c.methods[SYNC] == SYNC_METHOD
    && (forall n :: n in c.methods <==> n == SYNC || Seen(ms, p, n))
    && (forall i: nat :: i < p && ms[i].name != SYNC && !Seen(ms, i, ms[i].name) ==> Entered(c, ms, i))
  }

  lemma SeenNext(ms: seq<Method>, p: nat, n: Name)
    requires p < |ms|
    ensures Seen(ms, p + 1, n) <==> Seen(ms, p, n) || n == ms[p].name
  {
    if n == ms[p].name { assert ms[p].name == n; }
  }

  lemma EnteredNext(c: Registry, ms: seq<Method>, p: nat, i: nat)
    requires i <= p < |ms| && (i < p ==> Entered(c, ms, i))
    requires i == p ==> ms[p].id != 0 && ms[p].name !in c.methods && c.next == 1 + Counted(ms, p)
    ensures Entered(Learn(c, ms[p]), ms, i)
  {
  }

  lemma LearnedNext(c: Registry, ms: seq<Method>, p: nat)
    requires p < |ms| && SyncIsZero(ms) && Learned(c, ms, p)
    ensures Learned(Learn(c, ms[p]), ms, p + 1)
  {
    var c' := Learn(c, ms[p]);
    forall n ensures n in c'.methods <==> n == SYNC || Seen(ms, p + 1, n) { SeenNext(ms, p, n); }
    forall i: nat | i <= p && ms[i].name != SYNC && !Seen(ms, i, ms[i].name) ensures Entered(c', ms, i) {
      EnteredNext(c, ms, p, i);
    }
  }

  lemma LearnedNone(ms: seq<Method>)
    ensures Learned(Start(), ms, 0)
  {
    assert forall n :: n in Start().methods <==> n == SYNC;
  }

  lemma {:induction false} LearnedFirst(ms: seq<Method>, p: nat)
    requires p <= |ms| && SyncIsZero(ms)
    ensures Learned(LearnFirst(Start(), ms, p), ms, p)
  {
    if p == 0 {
      LearnedNone(ms);
    } else {
      LearnedFirst(ms, p - 1);
      LearnedNext(LearnFirst(Start(), ms, p - 1), ms, p - 1);
    }
  }

  // ---- Client IDs against the rows of the server ----------------------------------

  lemma {:induction false} KeyAtLeast(rows: seq<Row>, j: nat)
    requires ServerTable(rows) && j < |rows|
    ensures rows[j].key >= j
  {
    if j == 0 {
    } else {
      KeyAtLeast(rows, j - 1);
    }
  }

  lemma {:induction false} CountedSync(ms: seq<Method>, p: nat)
    requires SyncIsZero(ms) && 1 <= p <= |ms| && ms[0].name == SYNC
    ensures 1 + Counted(ms, p) <= p
    ensures 1 + Counted(ms, p) == p <==> forall j :: 1 <= j < p ==> ms[j].name != SYNC
  {
    if p == 1 {
    } else {
      CountedSync(ms, p - 1);
    }
  }

  lemma CountedAtMost(rows: seq<Row>, p: nat)
    requires ServerTable(rows) && 1 <= p <= |rows|
    ensures 1 + Counted(MethodsOf(rows), p) <= p
    ensures 1 + Counted(MethodsOf(rows), p) == p <==> forall j :: 1 <= j < p ==> rows[j].m.name != SYNC
  {
    var ms := MethodsOf(rows);
    CountedSync(ms, p);
    assert forall j :: 0 <= j < |ms| ==> ms[j].name == rows[j].m.name;
  }

  /** Up to `p`, the IDs of the server have no gap and nymphsync is not among them again. */
  ghost predicate Straight(rows: seq<Row>, p: nat)
    requires p < |rows|
  {
    forall j: nat :: j <= p ==> rows[j].key == j && (j > 0 ==> rows[j].m.name != SYNC)
  }

  /** The client's ID for the method that is first printed at `p` is the ID of a row of that method
      exactly if that row is at `p` and the table is straight up to there. */
  lemma RowDispatch(rows: seq<Row>, p: nat, q: nat)
    requires ServerTable(rows) && 1 <= p <= q < |rows|
    requires rows[p].m.name != SYNC
    ensures rows[q].key == 1 + Counted(MethodsOf(rows), p) <==> q == p && Straight(rows, p)
  {
    CountedAtMost(rows, p);
    KeyAtLeast(rows, q);
    if rows[q].key == 1 + Counted(MethodsOf(rows), p) {
      forall j: nat | j <= p ensures rows[j].key == j {
        KeyAtLeast(rows, j);
        KeyAtMost(rows, j, p);
      }
    }
  }

  lemma {:induction false} KeyAtMost(rows: seq<Row>, j: nat, p: nat)
    requires ServerTable(rows) && j <= p < |rows|
    ensures rows[j].key + (p - j) <= rows[p].key
    decreases p - j
  {
    if j == p {
    } else {
      KeyAtMost(rows, j + 1, p);
    }
  }

  // ---- The server's registry ------------------------------------------------------

  /** The client's maps after it has synchronised with the server `r`. */
  function Client(r: Registry): Registry {
    var ms := MethodsOf(AllRows(r));
    LearnFirst(Start(), ms, |ms|)
  }

  /** The table that nymphsync returns, as long as no ID dangles. */
  function ServerTableOf(r: Registry): seq<Byte> { Table(MethodsOf(AllRows(r))) }

  /** The methods of a registry can be printed and read: see `TableRoundTrip`. */
  ghost predicate Printable(r: Registry) {
    r.next < Pow256(4) && forall k :: k in r.ids ==> Short(r.ids[k])
  }

  lemma RowsPrintable(r: Registry)
    requires Sound(r) && Live(r) && Printable(r)
    ensures AllIdsFit(MethodsOf(AllRows(r))) && AllShort(MethodsOf(AllRows(r)))
    ensures |MethodsOf(AllRows(r))| < Pow256(4)
  {
    RowsAre(r, r.next);
    var rows := AllRows(r);
    forall i | 0 <= i < |rows| ensures IdFits(rows[i].m) && Short(rows[i].m) {
      assert rows[i].m == r.ids[rows[i].key];
    }
  }

  /** Synchronising with the table that the server prints. */
  lemma SyncReadsTable(r: Registry)
    requires Sound(r) && Live(r) && SyncFirst(r) && Printable(r)
    ensures SyncWith(Start(), ServerTableOf(r)) == Synced(true, Client(r))
  {
    var ms := MethodsOf(AllRows(r));
    ServerRows(r);
    RowsPrintable(r);
    TableRoundTrip(ms, Table(ms));
    assert ReadTable(Table(ms)).ms == ms;
  }

  lemma RowOf(r: Registry, k: nat) returns (p: nat)
    requires k < r.next && k in r.ids
    ensures p < |AllRows(r)| && AllRows(r)[p] == Row(k, r.ids[k])
  {
    RowsList(r, r.next, k);
    p :| 0 <= p < |AllRows(r)| && AllRows(r)[p].key == k;
    RowsAre(r, r.next);
  }

  /** No row of a method comes before that of its own ID. */
  lemma EarlierRow(r: Registry, n: Name, j: nat, p: nat)
    requires Sound(r) && Live(r) && n in r.methods && j < p < |AllRows(r)|
    requires AllRows(r)[p].key == r.methods[n].id
    ensures AllRows(r)[j].m.name != n
  {
    RowsAre(r, r.next);
    var k := AllRows(r)[j].key;
    assert k < r.methods[n].id && LiveAt(r, k);
  }

  /** When a table is cut short by something that is no record, synchronisation fails, and the client keeps
      the methods that came before. */
  lemma SyncGivesUp(c: Registry, ms: seq<Method>, n: nat, x: seq<Byte>, b: seq<Byte>)
    requires AllGood(ms) && |ms| < n && |x| >= 10 && x[..6] != METHOD
    requires 11 <= |b| && b[..7] == METHODS && FromLE(b[7..11]) == n && At(b, 11, Records(ms) + x)
    ensures SyncWith(c, b) == Synced(false, LearnFirst(c, ms, |ms|))
  {
    ReadGivesUp(ms, n, x, b);
  }

  /** From a table without the word METHODS, or with a count of 0, it learns nothing. */
  lemma SyncLearnsNothing(c: Registry, b: seq<Byte>)
    requires |b| < 11 || b[..7] != METHODS || b[7..11] == [0, 0, 0, 0]
    ensures SyncWith(c, b) == Synced(false, c)
  {
    if |b| >= 11 && b[7..11] == [0, 0, 0, 0] { NoCount(b[7..11]); }
  }

  lemma {:induction false} NoCount(d: seq<Byte>)
    requires forall i :: 0 <= i < |d| ==> d[i] == 0
    ensures FromLE(d) == 0
  {
    if d == [] {
    } else {
      NoCount(d[1..]);
    }
  }

  /** A registered method is first printed in the row of its own ID. */
  lemma FirstRow(r: Registry, n: Name) returns (p: nat)
    requires Sound(r) && Live(r) && n in r.methods
    ensures p < |AllRows(r)| && AllRows(r)[p] == Row(r.methods[n].id, r.methods[n])
    ensures !Seen(MethodsOf(AllRows(r)), p, n)
  {
    p := RowOf(r, r.methods[n].id);
    forall j: nat | j < p ensures AllRows(r)[j].m.name != n { EarlierRow(r, n, j, p); }
  }

  /** The client's entry of a method: its signature and the number of records of other methods that
      come before its own. */
  lemma ClientEntry(r: Registry, n: Name) returns (p: nat)
    requires Sound(r) && Live(r) && SyncFirst(r) && n in r.methods && n != SYNC
    ensures 1 <= p < |AllRows(r)| && AllRows(r)[p] == Row(r.methods[n].id, r.methods[n])
    ensures !Seen(MethodsOf(AllRows(r)), p, n)
    ensures n in Client(r).methods
    ensures Client(r).methods[n] == r.methods[n].(id := 1 + Counted(MethodsOf(AllRows(r)), p))
  {
    var ms := MethodsOf(AllRows(r));
    ServerRows(r);
    p := FirstRow(r, n);
    LearnedFirst(ms, |ms|);
    assert Entered(Client(r), ms, p);
  }

  /** The client knows the methods of the server, and no others. */
  lemma ClientNames(r: Registry, n: Name)
    requires Sound(r) && Live(r) && SyncFirst(r)
    ensures n in Client(r).methods <==> n in r.methods
  {
    var rows := AllRows(r);
    var ms := MethodsOf(rows);
    ServerRows(r);
    LearnedFirst(ms, |ms|);
    if n in r.methods {
      var p := FirstRow(r, n);
      assert ms[p].name == n;
    } else {
      RowsAre(r, r.next);
    }
  }

  /** No ID up to that of the method `n` is free or leads to nymphsync, save ID 0. */
  ghost predicate NoGapBefore(r: Registry, n: Name)
    requires n in r.methods
  {
    forall k :: 1 <= k <= r.methods[n].id ==> k in r.ids && r.ids[k].name != SYNC
  }

  lemma StraightIff(r: Registry, n: Name, p: nat)
    requires Sound(r) && Live(r) && SyncFirst(r) && n in r.methods
    requires p < |AllRows(r)| && AllRows(r)[p] == Row(r.methods[n].id, r.methods[n])
    ensures Straight(AllRows(r), p) <==> NoGapBefore(r, n)
  {
    RowsAre(r, r.next);
    ServerRows(r);
    var rows := AllRows(r);
    if Straight(rows, p) {
      forall k | 1 <= k <= r.methods[n].id ensures k in r.ids && r.ids[k].name != SYNC {
        assert rows[k].key == k;
      }
    }
    if NoGapBefore(r, n) {
      KeyAtLeast(rows, p);
      forall k: nat | k <= p ensures Listed(rows, k) { RowsList(r, r.next, k); }
      forall j: nat | j <= p ensures rows[j].key == j && (j > 0 ==> rows[j].m.name != SYNC) {
        DenseKeys(rows, j);
      }
    }
  }

  /** Ascending keys that leave out none up to `j` are the numbers from 0 up. */
  lemma {:induction false} DenseKeys(rows: seq<Row>, j: nat)
    requires ServerTable(rows) && j < |rows|
    requires forall k: nat :: k <= j ==> Listed(rows, k)
    ensures rows[j].key == j
  {
    KeyAtLeast(rows, j);
    if j == 0 {
    } else {
      DenseKeys(rows, j - 1);
      assert Listed(rows, j);
      var i :| 0 <= i < |rows| && rows[i].key == j;
      assert rows[j].key <= rows[i].key;
    }
  }

  /** What a lookup by ID comes to. Of a dangling ID nothing is known. */
  datatype Target = NotFound | Leads(m: Method) | Dangling

  /** What the server runs when the ID `id` is called. */
  function Lookup(r: Registry, id: nat): Target {
    if id !in r.ids then NotFound else if LiveAt(r, id) then Leads(r.ids[id]) else Dangling
  }

  lemma LookupIff(r: Registry, n: Name, p: nat, c: nat)
    requires Sound(r) && Live(r) && SyncFirst(r) && n in r.methods && n != SYNC
    requires 1 <= p < |AllRows(r)| && AllRows(r)[p] == Row(r.methods[n].id, r.methods[n])
    requires !Seen(MethodsOf(AllRows(r)), p, n) && c == 1 + Counted(MethodsOf(AllRows(r)), p)
    ensures Lookup(r, c) == Leads(r.methods[n]) <==> Straight(AllRows(r), p)
  {
    ServerRows(r);
    RowDispatch(AllRows(r), p, p);
    if Lookup(r, c) == Leads(r.methods[n]) {
      var q := RowOf(r, c);
      SeenIfBefore(AllRows(r), p, q);
      RowDispatch(AllRows(r), p, q);
    }
  }

  lemma SeenIfBefore(rows: seq<Row>, p: nat, q: nat)
    requires p < |rows| && q < |rows|
    ensures q < p ==> Seen(MethodsOf(rows), p, rows[q].m.name)
  {
    assert MethodsOf(rows)[q].name == rows[q].m.name;
  }

  /**
   * End to end: a client that has synchronised calls the method `n` by the ID it counted for it,
   * and the server runs the method registered as `n`, if and only if there is no gap in the
   * server's IDs up to that of `n` and nymphsync was not registered again before it.
   */
  lemma DispatchIff(r: Registry, n: Name)
    requires Sound(r) && Live(r) && SyncFirst(r) && n in r.methods
    ensures n in Client(r).methods
    ensures Client(r).methods[n] == r.methods[n].(id := Client(r).methods[n].id)
    ensures Lookup(r, Client(r).methods[n].id) == Leads(r.methods[n]) <==> NoGapBefore(r, n)
  {
    if n == SYNC {
      var ms := MethodsOf(AllRows(r));
      ServerRows(r);
      LearnedFirst(ms, |ms|);
    } else {
      var p := ClientEntry(r, n);
      StraightIff(r, n, p);
      LookupIff(r, n, p, Client(r).methods[n].id);
    }
  }

  // ---- Ranks ----------------------------------------------------------------------

  /** As long as no name was registered twice, the client's IDs are the same as the server's for
      all methods exactly if the server's IDs have no gap. */
  lemma SameIdsIff(r: Registry)
    requires Sound(r) && Live(r) && Agree(r) && SyncFirst(r)
    ensures (forall n :: n in r.methods ==> n in Client(r).methods && Client(r).methods[n].id == r.methods[n].id)
      <==> (forall n, k :: n in r.methods && 0 <= k < r.methods[n].id ==> k in r.ids)
  {
    forall n | n in r.methods
      ensures n in Client(r).methods
      ensures Client(r).methods[n].id == r.methods[n].id <==> forall k :: 0 <= k < r.methods[n].id ==> k in r.ids
    {
      DispatchIff(r, n);
      NoGapIff(r, n);
    }
  }

  lemma NoGapIff(r: Registry, n: Name)
    requires Sound(r) && Live(r) && Agree(r) && SyncFirst(r) && n in r.methods
    ensures NoGapBefore(r, n) <==> forall k :: 0 <= k < r.methods[n].id ==> k in r.ids
  {
    forall k | k in r.ids && r.ids[k].name == SYNC ensures k == 0 {
      assert r.ids[k] == r.methods[SYNC];
    }
  }

  lemma {:induction false} RowsPrefix(r: Registry, lo: nat, hi: nat)
    requires lo <= hi
    ensures Rows(r, lo) <= Rows(r, hi)
  {
    if lo == hi {
    } else {
      RowsPrefix(r, lo, hi - 1);
    }
  }

  /** An ID stands in the table behind all smaller ones, and before all others. */
  lemma RowIndex(r: Registry, p: nat)
    requires p < |AllRows(r)|
    ensures p == |Rows(r, AllRows(r)[p].key)|
  {
    var rows := AllRows(r);
    RowsAre(r, r.next);
    var k := rows[p].key;
    RowsPrefix(r, k + 1, r.next);
    var j := |Rows(r, k)|;
    assert rows[j] == Rows(r, k + 1)[j];
    assert rows[j].key == k;
  }

  lemma CountedDistinct(r: Registry, p: nat)
    requires Sound(r) && Live(r) && Agree(r) && SyncFirst(r) && 1 <= p <= |AllRows(r)|
    ensures 1 + Counted(MethodsOf(AllRows(r)), p) == p
  {
    var rows := AllRows(r);
    ServerRows(r);
    RowsAre(r, r.next);
    forall j | 1 <= j < p ensures rows[j].m.name != SYNC {
      assert r.ids[rows[j].key].id == rows[j].key > rows[0].key;
    }
    CountedAtMost(rows, p);
  }

  /** As long as no name was registered twice, the client's ID of a method is the rank of the
      server's ID in ascending order: the number of smaller IDs in use. */
  lemma ClientIdIsRank(r: Registry, n: Name)
    requires Sound(r) && Live(r) && Agree(r) && SyncFirst(r) && n in r.methods
    ensures n in Client(r).methods
    ensures Client(r).methods[n].id == |set k | 0 <= k < r.methods[n].id && k in r.ids|
  {
    RowCount(r, r.methods[n].id);
    if n == SYNC {
      var ms := MethodsOf(AllRows(r));
      ServerRows(r);
      LearnedFirst(ms, |ms|);
    } else {
      var p := ClientEntry(r, n);
      RowIndex(r, p);
      CountedDistinct(r, p);
    }
  }

  // ---- Over whole histories -------------------------------------------------------

  predicate OnlyAdds(ops: seq<Op>) {
    forall o :: o in ops ==> o.Add? && o.name != SYNC
  }

  predicate KeepsSync(ops: seq<Op>) {
    forall o :: o in ops ==> !(o.Drop? && o.name == SYNC)
  }

  /** What a history keeps that only adds methods: no gap, and nymphsync under ID 0 alone. */
  ghost predicate Full(r: Registry) {
    && Sound(r) && Live(r) && SyncFirst(r)
    && forall k :: 0 <= k < r.next ==> k in r.ids && (r.ids[k].name == SYNC ==> k == 0)
  }

  lemma {:induction false} OnlyAddsFull(r: Registry, ops: seq<Op>)
    requires Full(r) && OnlyAdds(ops)
    ensures Legal(r, ops) && Full(Run(r, ops))
    decreases |ops|
  {
    if ops == [] {
    } else {
      var o := ops[0];
      assert o in ops;
      RegisterSound(r, o.name, o.params, o.ret);
      OnlyAddsFull(Register(r, o.name, o.params, o.ret), ops[1..]);
    }
  }

  lemma {:induction false} SyncStays(r: Registry, ops: seq<Op>)
    requires SyncFirst(r) && Legal(r, ops) && KeepsSync(ops)
    ensures SyncFirst(Run(r, ops))
    decreases |ops|
  {
    if ops == [] {
    } else {
      assert ops[0] in ops;
      match ops[0]
      case Add(n, ps, t) => SyncStays(Register(r, n, ps, t), ops[1..]);
      case Drop(n) => SyncStays(Remove(r, n), ops[1..]);
    }
  }

  lemma StartSound()
    ensures Sound(Start()) && Live(Start()) && Agree(Start()) && SyncFirst(Start())
    ensures Start().methods.Keys == {SYNC} && AreDoubled(Start(), {})
  {
  }

  /** After any history, no ID of the server dangles if and only if no name was removed after it had
      been registered while present. */
  lemma HistoryLive(ops: seq<Op>)
    requires Legal(Start(), ops)
    ensures Sound(Run(Start(), ops))
    ensures Live(Run(Start(), ops)) <==> Clean({SYNC}, {}, ops)
  {
    StartSound();
    AgreeIff(Start(), ops);
    LiveIff(Start(), ops);
    CleanIff(Start(), {}, ops);
  }

  /**
   * After any registrations and removals that leave nymphsync and no dangling ID, a client that has
   * synchronised knows the methods of the server and no others, and a call by name runs the method of
   * that name if and only if no smaller ID is free or leads to nymphsync, save ID 0.
   */
  lemma HistoryDispatch(ops: seq<Op>, n: Name)
    requires Legal(Start(), ops) && KeepsSync(ops) && Clean({SYNC}, {}, ops)
    ensures var r := Run(Start(), ops);
      && (n in Client(r).methods <==> n in r.methods)
      && (n in r.methods ==>
            (Lookup(r, Client(r).methods[n].id) == Leads(r.methods[n]) <==> NoGapBefore(r, n)))
  {
    var r := Run(Start(), ops);
    StartSound();
    HistoryLive(ops);
    SyncStays(Start(), ops);
    ClientNames(r, n);
    if n in r.methods { DispatchIff(r, n); }
  }

  /**
   * A server that has only registered methods, none of them as nymphsync, but possibly the same
   * name several times, runs for every call by name the method of that name.
   */
  lemma AddedMethodsDispatch(ops: seq<Op>, n: Name)
    requires OnlyAdds(ops)
    ensures Legal(Start(), ops)
    ensures var r := Run(Start(), ops); n in r.methods ==>
      n in Client(r).methods && Lookup(r, Client(r).methods[n].id) == Leads(r.methods[n])
  {
    OnlyAddsFull(Start(), ops);
    var r := Run(Start(), ops);
    if n in r.methods { DispatchIff(r, n); }
  }

  /**
   * After any registrations of new names and removals of present ones, save of nymphsync, a call
   * by name runs the method of that name if and only if no method with a smaller ID is gone.
   */
  lemma RemovalsMisdirect(ops: seq<Op>, n: Name)
    requires Legal(Start(), ops) && NoDuplicates(Start(), ops) && KeepsSync(ops)
    requires n in Run(Start(), ops).methods
    ensures var r := Run(Start(), ops);
      && n in Client(r).methods
      && (Lookup(r, Client(r).methods[n].id) == Leads(r.methods[n])
          <==> forall k :: 0 <= k < r.methods[n].id ==> k in r.ids)
  {
    var r := Run(Start(), ops);
    AgreeIff(Start(), ops);
    SyncStays(Start(), ops);
    DispatchIff(r, n);
    NoGapIff(r, n);
  }

  /** The history of four steps that leaves a gap before the last method. */
  function GapHistory(a: Name, b: Name, c: Name): seq<Op> {
    [Add(a, [], TYPE_NULL), Add(b, [], TYPE_NULL), Add(c, [], TYPE_NULL), Drop(a)]
  }

  function GapServer(a: Name, b: Name, c: Name): Registry {
    Remove(Register(Register(Register(Start(), a, [], TYPE_NULL), b, [], TYPE_NULL), c, [], TYPE_NULL), a)
  }

  lemma RunLast(r: Registry, n: Name)
    requires n in r.methods
    ensures Legal(r, [Drop(n)]) && NoDuplicates(r, [Drop(n)]) && Run(r, [Drop(n)]) == Remove(r, n)
  {
    var ops := [Drop(n)];
    assert ops[1..] == [];
    assert Legal(Remove(r, n), []) && Run(Remove(r, n), []) == Remove(r, n);
  }

  lemma RunFirst(r: Registry, o: Op, rest: seq<Op>)
    requires o.Add? && Legal(Register(r, o.name, o.params, o.ret), rest)
    ensures Legal(r, [o] + rest) && Run(r, [o] + rest) == Run(Register(r, o.name, o.params, o.ret), rest)
    ensures NoDuplicates(r, [o] + rest) <==>
      o.name !in r.methods && NoDuplicates(Register(r, o.name, o.params, o.ret), rest)
  {
    assert ([o] + rest)[1..] == rest;
  }

  lemma GapRun(a: Name, b: Name, c: Name)
    requires a != SYNC && b != SYNC && c != SYNC && a != b && a != c && b != c
    ensures var ops := GapHistory(a, b, c);
      && Legal(Start(), ops) && NoDuplicates(Start(), ops) && KeepsSync(ops)
      && Run(Start(), ops) == GapServer(a, b, c)
  {
    var r1 := Register(Start(), a, [], TYPE_NULL);
    var r2 := Register(r1, b, [], TYPE_NULL);
    var r3 := Register(r2, c, [], TYPE_NULL);
    RunLast(r3, a);
    RunFirst(r2, Add(c, [], TYPE_NULL), [Drop(a)]);
    RunFirst(r1, Add(b, [], TYPE_NULL), [Add(c, [], TYPE_NULL)] + [Drop(a)]);
    RunFirst(Start(), Add(a, [], TYPE_NULL), [Add(b, [], TYPE_NULL)] + ([Add(c, [], TYPE_NULL)] + [Drop(a)]));
    assert GapHistory(a, b, c)
      == [Add(a, [], TYPE_NULL)] + ([Add(b, [], TYPE_NULL)] + ([Add(c, [], TYPE_NULL)] + [Drop(a)]));
  }

  lemma GapEntries(a: Name, b: Name, c: Name)
    requires a != SYNC && b != SYNC && c != SYNC && a != b && a != c && b != c
    ensures var r := GapServer(a, b, c);
      && b in r.methods && c in r.methods && r.methods[c].id == 3
      && r.ids.Keys == {0, 2, 3} && r.ids[2] == r.methods[b]
  {
  }

  lemma GapMisdirects(r: Registry, b: Name, c: Name)
    requires Sound(r) && Live(r) && Agree(r) && SyncFirst(r) && b in r.methods && c in r.methods
    requires r.methods[c].id == 3 && r.ids.Keys == {0, 2, 3} && r.ids[2] == r.methods[b]
    ensures c in Client(r).methods && Lookup(r, Client(r).methods[c].id) == Leads(r.methods[b])
  {
    ClientIdIsRank(r, c);
    assert (set k | 0 <= k < 3 && k in r.ids) == {0, 2};
  }

  /** What may happen otherwise: with the first of three methods gone, a client that calls the third
      makes the server run the second. */
  lemma WrongMethodRuns(a: Name, b: Name, c: Name)
    requires a != SYNC && b != SYNC && c != SYNC && a != b && a != c && b != c
    ensures var ops := GapHistory(a, b, c);
      && Legal(Start(), ops) && NoDuplicates(Start(), ops) && KeepsSync(ops)
    ensures var r := Run(Start(), GapHistory(a, b, c));
      && b in r.methods && c in Client(r).methods
      && Lookup(r, Client(r).methods[c].id) == Leads(r.methods[b])
  {
    GapRun(a, b, c);
    AgreeIff(Start(), GapHistory(a, b, c));
    GapEntries(a, b, c);
    GapMisdirects(GapServer(a, b, c), b, c);
  }

  /** When a method is registered twice, its second ID leads to the entry that carries the first. */
  lemma DuplicateDisagrees(a: Name)
    requires a != SYNC
    ensures var ops := [Add(a, [], TYPE_NULL), Add(a, [], TYPE_NULL)];
      && Legal(Start(), ops) && !Agree(Run(Start(), ops))
      && Lookup(Run(Start(), ops), 2) == Leads(Method(a, 1, [], TYPE_NULL))
  {
    var o := Add(a, [], TYPE_NULL);
    var r1 := Register(Start(), a, [], TYPE_NULL);
    var r2 := Register(r1, a, [], TYPE_NULL);
    assert [o][1..] == [] && Run(r1, [o]) == r2;
    RunFirst(Start(), o, [o]);
    assert [o, o] == [o] + [o];
    assert 2 in r2.ids && r2.ids[2].id == 1;
  }

  /** A method that is registered twice and then removed leaves an ID that leads to an erased entry. */
  lemma DuplicateDangles(a: Name)
    requires a != SYNC
    ensures var ops := [Add(a, [], TYPE_NULL), Add(a, [], TYPE_NULL), Drop(a)];
      && Legal(Start(), ops) && KeepsSync(ops) && !Clean({SYNC}, {}, ops)
      && !Live(Run(Start(), ops)) && Lookup(Run(Start(), ops), 2) == Dangling
  {
    var o := Add(a, [], TYPE_NULL);
    var r1 := Register(Start(), a, [], TYPE_NULL);
    var r2 := Register(r1, a, [], TYPE_NULL);
    RunLast(r2, a);
    RunFirst(r1, o, [Drop(a)]);
    RunFirst(Start(), o, [o] + [Drop(a)]);
    assert [o, o, Drop(a)] == [o] + ([o] + [Drop(a)]);
    var r := Remove(r2, a);
    assert 2 in r.ids && !LiveAt(r, 2);
    assert Run(Start(), [o, o, Drop(a)]) == r;
    HistoryLive([o, o, Drop(a)]);
  }
}
