/** Who deletes what: NymphMessage, its buffer and its values, under reference counting. */
module Ownership {
  import opened Options
  import opened Values
  import opened NymphTypes
  import Messages
  import NymphMessages

  /** The objects of a value on the heap. A text points into the buffer of its message. */
  datatype Tree =
    | Scalar(id: NymphType)
    | Text(id: NymphType)
    | Vec(id: NymphType, elems: seq<Tree>)
    | Map(id: NymphType, pairs: seq<Pair>)

  datatype Pair = Pair(key: Tree, val: Tree)

  /** What can be deleted: the message, its buffer, a NymphType, and the vector or map of one. */
  datatype Block = TheMessage | TheBuffer | Object(id: NymphType) | Container(id: NymphType)

  /** `linked`: its values were parsed from it and refer back to it. */
  datatype Message = Message(values: seq<Tree>, response: Option<Tree>, responseOwned: bool, linked: bool)

  /** `entered`: the destructor of the message has begun; to begin it again is a fault, after which
      nothing is known. */
  datatype Heap = Heap(refCount: nat, deleted: bool, entered: bool, freed: seq<Block>, fault: bool)

  // ---- Destructors ----------------------------------------------------------------

  /** What ~NymphType deletes apart from its message, in this order. */
  function Frees(t: Tree): seq<Block> {
    match t
    case Scalar(id) => [Object(id)]
    case Text(id) => [Object(id)]
    case Vec(id, elems) => FreesAll(elems) + [Container(id), Object(id)]
    case Map(id, pairs) => FreesPairs(pairs) + [Container(id), Object(id)]
  }

  function FreesAll(ts: seq<Tree>): seq<Block> {
    if ts == [] then [] else Frees(ts[0]) + FreesAll(ts[1..])
  }

  function FreesPairs(ps: seq<Pair>): seq<Block> {
    if ps == [] then [] else FreesPair(ps[0]) + FreesPairs(ps[1..])
  }

  function FreesPair(p: Pair): seq<Block> { Frees(p.key) + Frees(p.val) }

  /** Strings, arrays and structs count as references to the message they are linked with. */
  predicate Counts(m: Message, t: Tree) { m.linked && !t.Scalar? }

  function References(m: Message, ts: seq<Tree>): nat {
    if ts == [] then 0 else (if Counts(m, ts[0]) then 1 else 0) + References(m, ts[1..])
  }

  function Rank(h: Heap): nat { if h.entered then 0 else 1 }

  function DecrementReferenceCount(m: Message, h: Heap): (r: Heap)
    ensures h.entered ==> r.entered
    decreases Rank(h), |m.values| + 2, 0
  {
    if h.deleted then h
    else
      var h := h.(refCount := (h.refCount + 0xffff_ffff) % 0x1_0000_0000);
      if h.refCount == 0 then Delete(m, h) else h
  }

  /** ~NymphMessage, and the release of the message. */
  function Delete(m: Message, h: Heap): (r: Heap)
    ensures r.entered
    decreases Rank(h), |m.values| + 1, 1
  {
    if h.entered then h.(fault := true)
    else
      var h := DeleteValues(m, m.values, h.(entered := true, freed := h.freed + [TheBuffer]));
      var h := if m.responseOwned && m.response.Some? then DeleteValue(m, m.response.value, h) else h;
      if h.fault then h else h.(freed := h.freed + [TheMessage])
  }

  function DeleteValue(m: Message, t: Tree, h: Heap): (r: Heap)
    ensures h.entered ==> r.entered
    decreases Rank(h), |m.values| + 3, 0
  {
    if h.fault then h
    else
      var h := if Counts(m, t) then DecrementReferenceCount(m, h) else h;
      if h.fault then h else h.(freed := h.freed + Frees(t))
  }

  function DeleteValues(m: Message, ts: seq<Tree>, h: Heap): (r: Heap)
    ensures h.entered ==> r.entered
    decreases Rank(h), |m.values| + 4, |ts|
  {
    if ts == [] then h else DeleteValues(m, ts[1..], DeleteValue(m, ts[0], h))
  }

  function Discard(m: Message, h: Heap): Heap {
    Delete(m, h.(deleted := true))
  }

  // ---- After parsing --------------------------------------------------------------

  function TopLevel(m: Message): seq<Tree> {
    m.values + if m.response.Some? then [m.response.value] else []
  }

  /** Each counted value has added a reference; nothing is deleted. */
  function Alive(m: Message): Heap {
    Heap(References(m, TopLevel(m)), false, false, [], false)
  }

  function Everything(m: Message): seq<Block> {
    [TheBuffer] + FreesAll(TopLevel(m)) + [TheMessage]
  }

  lemma {:induction false} NoReferences(m: Message, ts: seq<Tree>)
    ensures References(m, ts) > 0 <==> m.linked && exists t :: t in ts && !t.Scalar?
    decreases |ts|
  {
    if ts == [] {
    } else {
      NoReferences(m, ts[1..]);
      assert forall t :: t in ts <==> t == ts[0] || t in ts[1..];
    }
  }

  /** As many references as there are strings, arrays and structs. */
  lemma {:induction false} ReferencesAre(m: Message, ts: seq<Tree>)
    ensures References(m, ts) == if m.linked then |set i | 0 <= i < |ts| && !ts[i].Scalar?| else 0
    decreases |ts|
  {
    var s := set i | 0 <= i < |ts| && !ts[i].Scalar?;
    if ts == [] {
      assert s == {};
    } else {
      var n := |ts| - 1;
      var init, last := ts[..n], ts[n];
      var r := set i | 0 <= i < |init| && !init[i].Scalar?;
      assert ts == init + [last];
      ReferencesConcat(m, init, [last]);
      ReferencesAre(m, init);
      assert References(m, [last]) == (if Counts(m, last) then 1 else 0) + References(m, []);
      assert s == if last.Scalar? then r else r + {n};
    }
  }

  lemma {:induction false} ReferencesConcat(m: Message, ts: seq<Tree>, us: seq<Tree>)
    ensures References(m, ts + us) == References(m, ts) + References(m, us)
    decreases |ts|
  {
    if ts == [] {
      assert ts + us == us;
    } else {
      assert (ts + us)[1..] == ts[1..] + us;
      ReferencesConcat(m, ts[1..], us);
    }
  }

  // ---- No block is forgotten ------------------------------------------------------

  /** `s` is `t` or stands somewhere below it. */
  predicate PartOf(older s: Tree, t: Tree) {
    s == t ||
    match t
    case Vec(_, elems) => PartOfAny(s, elems)
    case Map(_, pairs) => PartOfAnyPair(s, pairs)
    case _ => false
  }

  predicate PartOfAny(older s: Tree, ts: seq<Tree>) { ts != [] && (PartOf(s, ts[0]) || PartOfAny(s, ts[1..])) }

  predicate PartOfAnyPair(older s: Tree, ps: seq<Pair>) {
    ps != [] && (PartOfPair(s, ps[0]) || PartOfAnyPair(s, ps[1..]))
  }

  predicate PartOfPair(older s: Tree, p: Pair) { PartOf(s, p.key) || PartOf(s, p.val) }

  /** The object of `s` is deleted, and its vector or map. */
  ghost predicate Gone(s: Tree, bs: seq<Block>) {
    Object(s.id) in bs && (s.Vec? || s.Map? ==> Container(s.id) in bs)
  }

  /** ~NymphType deletes every part of a value. */
  lemma {:induction false} FreesParts(s: Tree, t: Tree)
    requires PartOf(s, t)
    ensures Gone(s, Frees(t))
    decreases t
  {
    if s == t {
    } else {
      match t
      case Vec(_, elems) => FreesAllParts(s, elems);
      case Map(_, pairs) => FreesPairsParts(s, pairs);
    }
  }

  lemma {:induction false} FreesAllParts(s: Tree, ts: seq<Tree>)
    requires PartOfAny(s, ts)
    ensures Gone(s, FreesAll(ts))
    decreases ts
  {
    if PartOf(s, ts[0]) {
      FreesParts(s, ts[0]);
    } else {
      FreesAllParts(s, ts[1..]);
    }
  }

  lemma {:induction false} FreesPairsParts(s: Tree, ps: seq<Pair>)
    requires PartOfAnyPair(s, ps)
    ensures Gone(s, FreesPairs(ps))
    decreases ps
  {
    if PartOfPair(s, ps[0]) {
      FreesPairParts(s, ps[0]);
    } else {
      FreesPairsParts(s, ps[1..]);
    }
  }

  lemma {:induction false} FreesPairParts(s: Tree, p: Pair)
    requires PartOfPair(s, p)
    ensures Gone(s, FreesPair(p))
    decreases p
  {
    if PartOf(s, p.key) {
      FreesParts(s, p.key);
    } else {
      FreesParts(s, p.val);
    }
  }

  /** `s` is deleted last of its parts: they go first, then its vector or map, and it right behind. */
  ghost predicate PartsFirst(s: Tree, bs: seq<Block>) {
    exists k :: PartsBefore(s, bs, k)
  }

  ghost predicate PartsBefore(s: Tree, bs: seq<Block>, k: nat) {
    && k < |bs| && bs[k] == Object(s.id)
    && (s.Vec? || s.Map? ==>
          && k > 0 && bs[k - 1] == Container(s.id)
          && forall p :: PartOf(p, s) && p != s ==> Gone(p, bs[..k - 1]))
  }

  lemma PartsFirstAround(s: Tree, a: seq<Block>, bs: seq<Block>, b: seq<Block>)
    requires PartsFirst(s, bs)
    ensures PartsFirst(s, a + bs + b)
  {
    var k :| PartsBefore(s, bs, k);
    var i := |a| + k;
    if s.Vec? || s.Map? { assert (a + bs + b)[..i - 1] == a + bs[..k - 1]; }
    assert PartsBefore(s, a + bs + b, i);
  }

  lemma FreesItself(t: Tree)
    ensures PartsFirst(t, Frees(t))
  {
    var bs := Frees(t);
    match t
    case Vec(_, elems) =>
      assert bs[..|bs| - 2] == FreesAll(elems);
      forall p | PartOf(p, t) && p != t ensures Gone(p, bs[..|bs| - 2]) { FreesAllParts(p, elems); }
      assert PartsBefore(t, bs, |bs| - 1);
    case Map(_, pairs) =>
      assert bs[..|bs| - 2] == FreesPairs(pairs);
      forall p | PartOf(p, t) && p != t ensures Gone(p, bs[..|bs| - 2]) { FreesPairsParts(p, pairs); }
      assert PartsBefore(t, bs, |bs| - 1);
    case _ =>
      assert PartsBefore(t, bs, 0);
  }

  /** ~NymphType deletes every part of a value behind the parts of that. */
  lemma {:induction false} FreesInOrder(s: Tree, t: Tree)
    requires PartOf(s, t)
    ensures PartsFirst(s, Frees(t))
    decreases t
  {
    if s == t {
      FreesItself(t);
    } else {
      match t
      case Vec(id, elems) =>
        FreesAllInOrder(s, elems);
        PartsFirstAround(s, [], FreesAll(elems), [Container(id), Object(id)]);
        assert [] + FreesAll(elems) == FreesAll(elems);
      case Map(id, pairs) =>
        FreesPairsInOrder(s, pairs);
        PartsFirstAround(s, [], FreesPairs(pairs), [Container(id), Object(id)]);
        assert [] + FreesPairs(pairs) == FreesPairs(pairs);
    }
  }

  lemma {:induction false} FreesAllInOrder(s: Tree, ts: seq<Tree>)
    requires PartOfAny(s, ts)
    ensures PartsFirst(s, FreesAll(ts))
    decreases ts
  {
    if PartOf(s, ts[0]) {
      FreesInOrder(s, ts[0]);
    } else {
      FreesAllInOrder(s, ts[1..]);
    }
    PartsFirstBoth(s, Frees(ts[0]), FreesAll(ts[1..]));
  }

  lemma PartsFirstBoth(s: Tree, a: seq<Block>, b: seq<Block>)
    requires PartsFirst(s, a) || PartsFirst(s, b)
    ensures PartsFirst(s, a + b)
  {
    assert [] + a + b == a + b && a + b + [] == a + b;
    if PartsFirst(s, a) { PartsFirstAround(s, [], a, b); } else { PartsFirstAround(s, a, b, []); }
  }

  lemma {:induction false} FreesPairsInOrder(s: Tree, ps: seq<Pair>)
    requires PartOfAnyPair(s, ps)
    ensures PartsFirst(s, FreesPairs(ps))
    decreases ps
  {
    if PartOfPair(s, ps[0]) {
      FreesPairInOrder(s, ps[0]);
    } else {
      FreesPairsInOrder(s, ps[1..]);
    }
    PartsFirstBoth(s, FreesPair(ps[0]), FreesPairs(ps[1..]));
  }

  lemma {:induction false} FreesPairInOrder(s: Tree, p: Pair)
    requires PartOfPair(s, p)
    ensures PartsFirst(s, FreesPair(p))
    decreases p
  {
    if PartOf(s, p.key) {
      FreesInOrder(s, p.key);
    } else {
      FreesInOrder(s, p.val);
    }
    PartsFirstBoth(s, Frees(p.key), Frees(p.val));
  }

  /** In particular every object of it. */
  lemma {:induction false} IdsFreed(t: Tree, x: NymphType)
    requires x in Ids(t)
    ensures Object(x) in Frees(t)
    decreases t
  {
    if x == t.id {
    } else {
      match t
      case Vec(_, elems) => IdsAllFreed(elems, x);
      case Map(_, pairs) => IdsPairsFreed(pairs, x);
    }
  }

  lemma {:induction false} IdsAllFreed(ts: seq<Tree>, x: NymphType)
    requires x in IdsAll(ts)
    ensures Object(x) in FreesAll(ts)
    decreases ts
  {
    if x in Ids(ts[0]) {
      IdsFreed(ts[0], x);
    } else {
      IdsAllFreed(ts[1..], x);
    }
  }

  lemma {:induction false} IdsPairsFreed(ps: seq<Pair>, x: NymphType)
    requires x in IdsPairs(ps)
    ensures Object(x) in FreesPairs(ps)
    decreases ps
  {
    if x in IdsPair(ps[0]) {
      IdsPairFreed(ps[0], x);
    } else {
      IdsPairsFreed(ps[1..], x);
    }
  }

  lemma {:induction false} IdsPairFreed(p: Pair, x: NymphType)
    requires x in IdsPair(p)
    ensures Object(x) in FreesPair(p)
    decreases p
  {
    if x in Ids(p.key) {
      IdsFreed(p.key, x);
    } else {
      IdsFreed(p.val, x);
    }
  }

  // ---- Counting and deleting ------------------------------------------------------

  lemma DecrementDeleted(m: Message, h: Heap)
    requires h.deleted
    ensures DecrementReferenceCount(m, h) == h
  {
  }

  lemma DecrementAlive(m: Message, h: Heap)
    requires !h.deleted && 0 < h.refCount < 0x1_0000_0000
    ensures var h' := h.(refCount := h.refCount - 1);
      DecrementReferenceCount(m, h) == if h'.refCount == 0 then Delete(m, h') else h'
  {
    assert (h.refCount + 0xffff_ffff) % 0x1_0000_0000 == h.refCount - 1;
  }

  lemma DeleteEntered(m: Message, h: Heap)
    requires h.entered
    ensures Delete(m, h) == h.(fault := true)
  {
  }

  /** Once the message is marked as deleted, its values no longer count down. */
  lemma {:induction false} DeleteValuesDeleted(m: Message, ts: seq<Tree>, h: Heap)
    requires h.deleted && !h.fault
    ensures DeleteValues(m, ts, h) == h.(freed := h.freed + FreesAll(ts))
    decreases |ts|
  {
    if ts == [] {
      assert h.freed + [] == h.freed;
    } else {
      DecrementDeleted(m, h);
      DeleteValuesDeleted(m, ts[1..], DeleteValue(m, ts[0], h));
      assert h.freed + Frees(ts[0]) + FreesAll(ts[1..]) == h.freed + (Frees(ts[0]) + FreesAll(ts[1..]));
    }
  }

  /** If it is not marked, the last reference to go begins the destructor a second time. */
  lemma {:induction false} DeleteValuesAlive(m: Message, ts: seq<Tree>, h: Heap)
    requires h.entered && !h.deleted && !h.fault && 0 < h.refCount < 0x1_0000_0000
    ensures var r := DeleteValues(m, ts, h);
      if References(m, ts) >= h.refCount then r.fault
      else r == h.(refCount := h.refCount - References(m, ts), freed := h.freed + FreesAll(ts))
    decreases |ts|
  {
    if ts == [] {
      assert h.freed + [] == h.freed;
    } else {
      DecrementAlive(m, h);
      DeleteEntered(m, h.(refCount := h.refCount - 1));
      var h' := DeleteValue(m, ts[0], h);
      if h'.fault {
        FaultStays(m, ts[1..], h');
      } else {
        DeleteValuesAlive(m, ts[1..], h');
        assert h.freed + Frees(ts[0]) + FreesAll(ts[1..]) == h.freed + (Frees(ts[0]) + FreesAll(ts[1..]));
      }
    }
  }

  lemma {:induction false} FaultStays(m: Message, ts: seq<Tree>, h: Heap)
    requires h.fault
    ensures DeleteValues(m, ts, h).fault
    decreases |ts|
  {
    if ts == [] {
    } else {
      FaultStays(m, ts[1..], h);
    }
  }

  /** Without references nothing is counted down. */
  lemma {:induction false} DeleteValuesScalar(m: Message, ts: seq<Tree>, h: Heap)
    requires !h.fault && References(m, ts) == 0
    ensures DeleteValues(m, ts, h) == h.(freed := h.freed + FreesAll(ts))
    decreases |ts|
  {
    if ts == [] {
      assert h.freed + [] == h.freed;
    } else {
      DeleteValuesScalar(m, ts[1..], DeleteValue(m, ts[0], h));
      assert h.freed + Frees(ts[0]) + FreesAll(ts[1..]) == h.freed + (Frees(ts[0]) + FreesAll(ts[1..]));
    }
  }

  /** The values and an owned response are deleted one after the other. */
  lemma DeleteAsOne(m: Message, h: Heap)
    requires !h.entered && (m.response.Some? ==> m.responseOwned)
    ensures var r := DeleteValues(m, TopLevel(m), h.(entered := true, freed := h.freed + [TheBuffer]));
      Delete(m, h) == if r.fault then r else r.(freed := r.freed + [TheMessage])
  {
    var g := h.(entered := true, freed := h.freed + [TheBuffer]);
    if m.response.Some? {
      DeleteValuesSnoc(m, m.values, m.response.value, g);
    } else {
      assert TopLevel(m) == m.values;
    }
  }

  lemma {:induction false} DeleteValuesSnoc(m: Message, ts: seq<Tree>, t: Tree, h: Heap)
    ensures DeleteValues(m, ts + [t], h) == DeleteValue(m, t, DeleteValues(m, ts, h))
    decreases |ts|
  {
    if ts == [] {
      assert ts + [t] == [t];
      assert DeleteValues(m, [t], h) == DeleteValues(m, [], DeleteValue(m, t, h));
    } else {
      assert (ts + [t])[1..] == ts[1..] + [t];
      DeleteValuesSnoc(m, ts[1..], t, DeleteValue(m, ts[0], h));
    }
  }

  /**
   * discard deletes the buffer, then every value, each part behind the parts of that, and at last the
   * message, each once, however many of the values refer back to the message while it is being deleted.
   */
  lemma DiscardDeletesAll(m: Message)
    requires m.response.Some? ==> m.responseOwned
    ensures var h := Discard(m, Alive(m));
      && !h.fault && h.freed == Everything(m)
      && h.freed[0] == TheBuffer && h.freed[|h.freed| - 1] == TheMessage
      && forall s :: PartOfAny(s, TopLevel(m)) ==> Gone(s, h.freed) && PartsFirst(s, h.freed)
  {
    forall s | PartOfAny(s, TopLevel(m)) ensures Gone(s, Everything(m)) && PartsFirst(s, Everything(m)) {
      FreesAllParts(s, TopLevel(m));
      FreesAllInOrder(s, TopLevel(m));
      PartsFirstAround(s, [TheBuffer], FreesAll(TopLevel(m)), [TheMessage]);
    }
    var h := Alive(m).(deleted := true);
    DeleteAsOne(m, h);
    DeleteValuesDeleted(m, TopLevel(m), h.(entered := true, freed := h.freed + [TheBuffer]));
  }

  /** A direct `delete` does the same if and only if no string, array or struct refers back to it;
      otherwise the message is deleted a second time while it is being deleted. */
  lemma DirectDeleteIff(m: Message)
    requires (m.response.Some? ==> m.responseOwned) && References(m, TopLevel(m)) < 0x1_0000_0000
    ensures var h := Delete(m, Alive(m));
      && (h.fault <==> m.linked && exists t :: t in TopLevel(m) && !t.Scalar?)
      && (!h.fault ==> h.freed == Everything(m))
  {
    var h := Alive(m);
    var g := h.(entered := true, freed := h.freed + [TheBuffer]);
    DeleteAsOne(m, h);
    NoReferences(m, TopLevel(m));
    if References(m, TopLevel(m)) == 0 {
      DeleteValuesScalar(m, TopLevel(m), g);
    } else {
      DeleteValuesAlive(m, TopLevel(m), g);
    }
  }

  /** A message with a single text is deleted twice by a direct `delete`, and once by discard. */
  lemma TextDeletedTwice(t: NymphType)
    ensures var m := Message([Text(t)], None, true, true);
      Delete(m, Alive(m)).fault && Discard(m, Alive(m)).freed == [TheBuffer, Object(t), TheMessage]
  {
    var m := Message([Text(t)], None, true, true);
    assert TopLevel(m) == [Text(t)];
    assert References(m, [Text(t)]) == 1 + References(m, []);
    DirectDeleteIff(m);
    DiscardDeletesAll(m);
    assert FreesAll([Text(t)]) == Frees(Text(t)) + FreesAll([]);
  }

  /**
   * A response that has been taken from a reply: deleting it deletes the message and its buffer with
   * it, once, if it is a string, an array or a struct; else these stay.
   */
  lemma TakenResponse(m: Message)
    requires m.values == [] && m.response.Some? && !m.responseOwned && m.linked
    ensures var t := m.response.value; var h := DeleteValue(m, t, Alive(m));
      !h.fault && h.freed == (if t.Scalar? then [] else [TheBuffer, TheMessage]) + Frees(t)
  {
    assert TopLevel(m) == [m.response.value];
    assert References(m, TopLevel(m)) == (if Counts(m, m.response.value) then 1 else 0) + References(m, []);
    if !m.response.value.Scalar? {
      DecrementAlive(m, Alive(m));
      var h := Delete(m, Alive(m).(refCount := 0));
      assert DeleteValues(m, [], h) == h;
      assert [] + [TheBuffer] + [TheMessage] == [TheBuffer, TheMessage];
    }
  }

  // ---- Each block once ------------------------------------------------------------

  function Ids(t: Tree): multiset<NymphType> {
    multiset{t.id} +
      match t
      case Vec(_, elems) => IdsAll(elems)
      case Map(_, pairs) => IdsPairs(pairs)
      case _ => multiset{}
  }

  function IdsAll(ts: seq<Tree>): multiset<NymphType> {
    if ts == [] then multiset{} else Ids(ts[0]) + IdsAll(ts[1..])
  }

  function IdsPairs(ps: seq<Pair>): multiset<NymphType> {
    if ps == [] then multiset{} else IdsPair(ps[0]) + IdsPairs(ps[1..])
  }

  function IdsPair(p: Pair): multiset<NymphType> { Ids(p.key) + Ids(p.val) }

  ghost predicate Apart(ids: multiset<NymphType>) { forall x :: x in ids ==> ids[x] == 1 }

  ghost predicate Once(bs: seq<Block>) { forall i, j :: 0 <= i < j < |bs| ==> bs[i] != bs[j] }

  /** All these blocks belong to these objects. */
  ghost predicate Within(bs: seq<Block>, ids: multiset<NymphType>) {
    forall b :: b in bs ==> (b.Object? || b.Container?) && b.id in ids
  }

  lemma OnceJoin(a: seq<Block>, b: seq<Block>)
    requires Once(a) && Once(b) && forall x :: x in a ==> x !in b
    ensures Once(a + b)
  {
    var s := a + b;
    forall i, j | 0 <= i < j < |s| ensures s[i] != s[j] {
      if i < |a| <= j { assert s[i] in a && s[j] in b; }
    }
  }

  lemma ApartParts(a: multiset<NymphType>, b: multiset<NymphType>)
    requires Apart(a + b)
    ensures Apart(a) && Apart(b) && forall x :: x in a ==> x !in b
  {
    forall x | x in a ensures a[x] == 1 && x !in b { assert (a + b)[x] == a[x] + b[x] && x in a + b; }
    forall x | x in b ensures b[x] == 1 { assert (a + b)[x] == a[x] + b[x] && x in a + b; }
  }

  lemma OnceConcat(a: seq<Block>, b: seq<Block>, i: multiset<NymphType>, j: multiset<NymphType>)
    requires Once(a) && Once(b) && Within(a, i) && Within(b, j) && Apart(i + j)
    ensures Once(a + b) && Within(a + b, i + j)
  {
    ApartParts(i, j);
    OnceJoin(a, b);
  }

  /** An object and its vector or map, after everything below it. */
  lemma OnceContainer(bs: seq<Block>, ids: multiset<NymphType>, id: NymphType)
    requires Once(bs) && Within(bs, ids) && Apart(multiset{id} + ids)
    ensures Once(bs + [Container(id), Object(id)]) && Within(bs + [Container(id), Object(id)], multiset{id} + ids)
  {
    ApartParts(multiset{id}, ids);
    assert id in multiset{id};
    OnceJoin(bs, [Container(id), Object(id)]);
  }

  lemma {:induction false} FreesOnce(t: Tree)
    requires Apart(Ids(t))
    ensures Once(Frees(t)) && Within(Frees(t), Ids(t))
    decreases t
  {
    match t
    case Vec(id, elems) =>
      ApartParts(multiset{id}, IdsAll(elems));
      FreesAllOnce(elems);
      OnceContainer(FreesAll(elems), IdsAll(elems), id);
    case Map(id, pairs) =>
      ApartParts(multiset{id}, IdsPairs(pairs));
      FreesPairsOnce(pairs);
      OnceContainer(FreesPairs(pairs), IdsPairs(pairs), id);
    case _ =>
  }

  lemma {:induction false} FreesAllOnce(ts: seq<Tree>)
    requires Apart(IdsAll(ts))
    ensures Once(FreesAll(ts)) && Within(FreesAll(ts), IdsAll(ts))
    decreases ts
  {
    if ts == [] {
    } else {
      ApartParts(Ids(ts[0]), IdsAll(ts[1..]));
      FreesOnce(ts[0]);
      FreesAllOnce(ts[1..]);
      OnceConcat(Frees(ts[0]), FreesAll(ts[1..]), Ids(ts[0]), IdsAll(ts[1..]));
    }
  }

  lemma {:induction false} FreesPairOnce(p: Pair)
    requires Apart(IdsPair(p))
    ensures Once(FreesPair(p)) && Within(FreesPair(p), IdsPair(p))
    decreases p
  {
    ApartParts(Ids(p.key), Ids(p.val));
    FreesOnce(p.key);
    FreesOnce(p.val);
    OnceConcat(Frees(p.key), Frees(p.val), Ids(p.key), Ids(p.val));
  }

  lemma {:induction false} FreesPairsOnce(ps: seq<Pair>)
    requires Apart(IdsPairs(ps))
    ensures Once(FreesPairs(ps)) && Within(FreesPairs(ps), IdsPairs(ps))
    decreases ps
  {
    if ps == [] {
    } else {
      ApartParts(IdsPair(ps[0]), IdsPairs(ps[1..]));
      FreesPairOnce(ps[0]);
      FreesPairsOnce(ps[1..]);
      OnceConcat(FreesPair(ps[0]), FreesPairs(ps[1..]), IdsPair(ps[0]), IdsPairs(ps[1..]));
    }
  }

  /** If no object occurs twice, nothing is deleted twice. */
  lemma EverythingOnce(m: Message)
    requires Apart(IdsAll(TopLevel(m)))
    ensures Once(Everything(m))
  {
    var values := FreesAll(TopLevel(m));
    FreesAllOnce(TopLevel(m));
    OnceJoin([TheBuffer], values);
    OnceJoin([TheBuffer] + values, [TheMessage]);
  }

  // ---- The objects of a parsed message --------------------------------------------

  ghost function TreeOf(t: NymphType, v: Value, repr: set<NymphType>): Tree
    requires Is(t, v, repr)
    reads repr
    decreases v, 1
  {
    match t.data
    case Chars(_) => Text(t)
    case Vector(vs) => Vec(t, TreesOf(vs, v.elems, repr))
    case Pairs(ps) => Map(t, PairsOf(ps, v.fields, repr))
    case _ => Scalar(t)
  }

  ghost function TreesOf(ts: seq<NymphType>, vs: seq<Value>, repr: set<NymphType>): seq<Tree>
    requires AllAre(ts, vs, repr)
    reads repr
    decreases vs, 0
  {
    if ts == [] then [] else [TreeOf(ts[0], vs[0], repr)] + TreesOf(ts[1..], vs[1..], repr)
  }

  ghost function PairsOf(ps: seq<Entry>, fs: seq<Field>, repr: set<NymphType>): seq<Pair>
    requires AllPairsAre(ps, fs, repr)
    reads repr
    decreases fs, 0
  {
    if ps == [] then []
    else [Pair(Text(ps[0].key), TreeOf(ps[0].value, fs[0].val, repr))] + PairsOf(ps[1..], fs[1..], repr)
  }

  lemma {:induction false} IdsOf(t: NymphType, v: Value, repr: set<NymphType>)
    requires Is(t, v, repr)
    ensures Ids(TreeOf(t, v, repr)) == Objects(t, v, repr)
    decreases v, 1
  {
    match t.data
    case Vector(vs) => IdsOfAll(vs, v.elems, repr);
    case Pairs(ps) => IdsOfPairs(ps, v.fields, repr);
    case _ =>
  }

  lemma {:induction false} IdsOfAll(ts: seq<NymphType>, vs: seq<Value>, repr: set<NymphType>)
    requires AllAre(ts, vs, repr)
    ensures IdsAll(TreesOf(ts, vs, repr)) == ObjectsAll(ts, vs, repr)
    decreases vs, 0
  {
    if ts == [] {
    } else {
      IdsOf(ts[0], vs[0], repr);
      IdsOfAll(ts[1..], vs[1..], repr);
    }
  }

  lemma TextIds(key: NymphType, val: Tree, rest: seq<Pair>)
    ensures IdsPairs([Pair(Text(key), val)] + rest) == multiset{key} + Ids(val) + IdsPairs(rest)
  {
    assert Ids(Text(key)) == multiset{key};
  }

  lemma {:induction false} IdsOfPairs(ps: seq<Entry>, fs: seq<Field>, repr: set<NymphType>)
    requires AllPairsAre(ps, fs, repr)
    ensures IdsPairs(PairsOf(ps, fs, repr)) == ObjectsPairs(ps, fs, repr)
    decreases fs, 0
  {
    if ps == [] {
    } else {
      IdsOf(ps[0].value, fs[0].val, repr);
      IdsOfPairs(ps[1..], fs[1..], repr);
      TextIds(ps[0].key, TreeOf(ps[0].value, fs[0].val, repr), PairsOf(ps[1..], fs[1..], repr));
    }
  }

  /** A message that holds `m` and owns all its values, as the parsing constructor leaves it. */
  ghost function Owned(msg: NymphMessages.NymphMessage, m: Messages.Message, repr: set<NymphType>): Message
    requires msg.Holds(m, repr)
    reads msg, repr
  {
    Message(TreesOf(msg.values, m.values, repr),
            if msg.response == null then None else Some(TreeOf(msg.response, m.response, repr)), true, true)
  }

  lemma {:induction false} IdsAllSnoc(ts: seq<Tree>, t: Tree)
    ensures IdsAll(ts + [t]) == IdsAll(ts) + Ids(t)
    decreases |ts|
  {
    if ts == [] {
      assert ts + [t] == [t];
    } else {
      assert (ts + [t])[1..] == ts[1..] + [t];
      IdsAllSnoc(ts[1..], t);
    }
  }

  lemma OwnedIds(msg: NymphMessages.NymphMessage, m: Messages.Message, repr: set<NymphType>)
    requires msg.HoldsApart(m, repr)
    ensures IdsAll(TopLevel(Owned(msg, m, repr))) <= multiset(repr)
  {
    var ts := TreesOf(msg.values, m.values, repr);
    IdsOfAll(msg.values, m.values, repr);
    if msg.response == null {
      assert ts + [] == ts;
    } else {
      IdsOf(msg.response, m.response, repr);
      IdsAllSnoc(ts, TreeOf(msg.response, m.response, repr));
    }
  }

  lemma {:induction false} FreesAllSnoc(ts: seq<Tree>, t: Tree)
    ensures FreesAll(ts + [t]) == FreesAll(ts) + Frees(t)
    decreases |ts|
  {
    if ts == [] {
      assert ts + [t] == [t];
    } else {
      assert (ts + [t])[1..] == ts[1..] + [t];
      FreesAllSnoc(ts[1..], t);
    }
  }

  lemma OwnedClosed(msg: NymphMessages.NymphMessage, m: Messages.Message, repr: set<NymphType>)
    requires msg.Holds(m, repr)
    ensures var bs := Everything(Owned(msg, m, repr));
      && (forall t :: t in msg.values ==> Object(t) in bs) && Closed(bs, repr)
      && (msg.response != null ==> Object(msg.response) in bs)
  {
    var ts := TreesOf(msg.values, m.values, repr);
    FreesAllClosed(msg.values, m.values, repr);
    if msg.response == null {
      assert ts + [] == ts;
    } else {
      FreesClosed(msg.response, m.response, repr);
      FreesAllSnoc(ts, TreeOf(msg.response, m.response, repr));
    }
  }

  /** Whatever hangs on a deleted object is deleted too: its vector with the elements, its map with the keys
      and the values. */
  ghost predicate NothingHangs(x: NymphType, bs: seq<Block>)
    reads x
  {
    match x.data
    case Vector(vs) => Container(x) in bs && forall e :: e in vs ==> Object(e) in bs
    case Pairs(ps) => Container(x) in bs && forall p :: p in ps ==> Object(p.key) in bs && Object(p.value) in bs
    case _ => true
  }

  ghost predicate Closed(bs: seq<Block>, repr: set<NymphType>)
    reads repr
  {
    forall x :: x in repr && Object(x) in bs ==> NothingHangs(x, bs)
  }

  lemma {:induction false} FreesClosed(t: NymphType, v: Value, repr: set<NymphType>)
    requires Is(t, v, repr)
    ensures Object(t) in Frees(TreeOf(t, v, repr)) && Closed(Frees(TreeOf(t, v, repr)), repr)
    decreases v, 1
  {
    match t.data
    case Vector(vs) => FreesAllClosed(vs, v.elems, repr);
    case Pairs(ps) => FreesPairsClosed(ps, v.fields, repr);
    case _ =>
  }

  lemma {:induction false} FreesAllClosed(ts: seq<NymphType>, vs: seq<Value>, repr: set<NymphType>)
    requires AllAre(ts, vs, repr)
    ensures forall t :: t in ts ==> Object(t) in FreesAll(TreesOf(ts, vs, repr))
    ensures Closed(FreesAll(TreesOf(ts, vs, repr)), repr)
    decreases vs, 0
  {
    if ts == [] {
    } else {
      FreesClosed(ts[0], vs[0], repr);
      FreesAllClosed(ts[1..], vs[1..], repr);
    }
  }

  lemma TextFrees(key: NymphType, val: Tree, rest: seq<Pair>)
    ensures FreesPairs([Pair(Text(key), val)] + rest) == [Object(key)] + Frees(val) + FreesPairs(rest)
  {
    assert Frees(Text(key)) == [Object(key)];
  }

  lemma ClosedJoin(a: seq<Block>, b: seq<Block>, repr: set<NymphType>)
    requires Closed(a, repr) && Closed(b, repr)
    ensures Closed(a + b, repr)
  {
  }

  lemma {:induction false} FreesPairsClosed(ps: seq<Entry>, fs: seq<Field>, repr: set<NymphType>)
    requires AllPairsAre(ps, fs, repr)
    ensures var bs := FreesPairs(PairsOf(ps, fs, repr));
      Closed(bs, repr) && forall p :: p in ps ==> Object(p.key) in bs && Object(p.value) in bs
    decreases fs, 0
  {
    if ps == [] {
    } else {
      var val, rest := TreeOf(ps[0].value, fs[0].val, repr), PairsOf(ps[1..], fs[1..], repr);
      FreesClosed(ps[0].value, fs[0].val, repr);
      FreesPairsClosed(ps[1..], fs[1..], repr);
      TextFrees(ps[0].key, val, rest);
      assert IsString(ps[0].key, fs[0].key, repr);
      ClosedJoin([Object(ps[0].key)] + Frees(val), FreesPairs(rest), repr);
    }
  }

  /**
   * Discarding a message that has been parsed deletes its buffer, every object that its values are
   * made of and the message, each once: `NymphMessage.Parse` leaves no object in two places.
   */
  lemma ParsedDiscard(msg: NymphMessages.NymphMessage, m: Messages.Message, repr: set<NymphType>)
    requires msg.HoldsApart(m, repr)
    ensures var o := Owned(msg, m, repr); var h := Discard(o, Alive(o));
      && !h.fault && h.freed == Everything(o) && Once(h.freed) && TheBuffer in h.freed && TheMessage in h.freed
      && (forall t :: t in msg.values ==> Object(t) in h.freed)
      && (msg.response != null ==> Object(msg.response) in h.freed)
      && Closed(h.freed, repr)
  {
    var o := Owned(msg, m, repr);
    OwnedIds(msg, m, repr);
    EverythingOnce(o);
    DiscardDeletesAll(o);
    OwnedClosed(msg, m, repr);
  }

  // ---- The class ------------------------------------------------------------------

  /** A NymphMessage as far as its life goes; the last three fields record what has been deleted. */
  class CountedMessage {
    const values: seq<Tree>
    const response: Option<Tree>
    var responseOwned: bool
    var linked: bool
    var refCount: nat
    var deleted: bool
    var entered: bool
    var freed: seq<Block>
    var fault: bool

    ghost function Msg(): Message
      reads this
    {
      Message(values, response, responseOwned, linked)
    }

    ghost function State(): Heap
      reads this
    {
      Heap(refCount, deleted, entered, freed, fault)
    }

    /** The end of the parsing constructor: linkWithMessage for every value. */
    constructor (values: seq<Tree>, response: Option<Tree>)
      requires References(Message(values, response, true, true), values) < 0xffff_ffff
      ensures Msg() == Message(values, response, true, true) && State() == Alive(Msg())
    {
      this.values, this.response, responseOwned, linked := values, response, true, true;
      refCount, deleted, entered, freed, fault := 0, false, false, [], false;
      new;
      for i := 0 to |values|
        invariant Msg() == Message(values, response, true, true)
        invariant State() == Heap(References(Msg(), values[..i]), false, false, [], false)
      {
        ReferencesConcat(Msg(), values[..i], [values[i]]);
        assert values[..i] + [values[i]] == values[..i + 1];
        assert References(Msg(), [values[i]]) == (if Counts(Msg(), values[i]) then 1 else 0) + References(Msg(), []);
        if !values[i].Scalar? { refCount := refCount + 1; }
      }
      assert values[..|values|] == values;
      if response.Some? {
        ReferencesConcat(Msg(), values, [response.value]);
        assert References(Msg(), [response.value])
          == (if Counts(Msg(), response.value) then 1 else 0) + References(Msg(), []);
        if !response.value.Scalar? { refCount := refCount + 1; }
      } else {
        assert TopLevel(Msg()) == values;
      }
    }

    /** Called without an argument, it leaves the response to the caller. */
    method GetResponse(take: bool) returns (r: Option<Tree>)
      modifies this`responseOwned
      ensures r == response && responseOwned == take
    {
      responseOwned := take;
      r := response;
    }

    method CountDown()
      modifies this
      ensures Msg() == old(Msg()) && State() == DecrementReferenceCount(Msg(), old(State()))
      decreases if entered then 0 else 1, |values| + 2, 0
    {
      if deleted { return; }
      refCount := (refCount + 0xffff_ffff) % 0x1_0000_0000;
      if refCount == 0 { DeleteThis(); }
    }

    method DeleteThis()
      modifies this
      ensures Msg() == old(Msg()) && State() == Delete(Msg(), old(State()))
      decreases if entered then 0 else 1, |values| + 1, 1
    {
      if entered {
        fault := true;
        return;
      }
      entered, freed := true, freed + [TheBuffer];
      DeleteFrom(values);
      if responseOwned && response.Some? { DeleteOne(response.value); }
      if !fault { freed := freed + [TheMessage]; }
    }

    method DeleteOne(t: Tree)
      modifies this
      ensures Msg() == old(Msg()) && State() == DeleteValue(Msg(), t, old(State()))
      decreases if entered then 0 else 1, |values| + 3, 0
    {
      if fault { return; }
      if Counts(Message(values, response, responseOwned, linked), t) { CountDown(); }
      if !fault { freed := freed + Frees(t); }
    }

    method DeleteFrom(ts: seq<Tree>)
      modifies this
      ensures Msg() == old(Msg()) && State() == DeleteValues(Msg(), ts, old(State()))
      decreases if entered then 0 else 1, |values| + 4, 0
    {
      for i := 0 to |ts|
        invariant Msg() == old(Msg()) && (old(entered) ==> entered)
        invariant DeleteValues(Msg(), ts[i..], State()) == DeleteValues(Msg(), ts, old(State()))
      {
        assert ts[i..][1..] == ts[i + 1..];
        DeleteOne(ts[i]);
      }
    }

    method DiscardThis()
      modifies this
      ensures Msg() == old(Msg()) && State() == Discard(Msg(), old(State()))
    {
      deleted := true;
      DeleteThis();
    }
  }
}
