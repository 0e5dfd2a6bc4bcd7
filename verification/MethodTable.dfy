/** The printed method table of a server, and how a client reads it. */
module MethodTable {
  import opened Bytes
  import opened Values

  type Name = seq<Byte>

  /** A registered method. `params` and `ret` are NymphTypes enumerators. */
  datatype Method = Method(name: Name, id: nat, params: seq<TypeCode>, ret: TypeCode)

  const METHODS: seq<Byte> := [0x4d, 0x45, 0x54, 0x48, 0x4f, 0x44, 0x53]
  const METHOD: seq<Byte> := [0x4d, 0x45, 0x54, 0x48, 0x4f, 0x44]

  /** "nymphsync" */
  const SYNC: Name := [0x6e, 0x79, 0x6d, 0x70, 0x68, 0x73, 0x79, 0x6e, 0x63]

  // ---- Printing -------------------------------------------------------------------

  /** What NymphMethod::setId prints. Both lengths are cut to one octet; the name is printed
      whole all the same, the parameters only as far as the cut length goes. */
  function Record(m: Method): seq<Byte> {
    METHOD + LE(m.id, 4) + [|m.name| % 256] + m.name
    + [|m.params| % 256] + m.params[..|m.params| % 256] + [m.ret]
  }

  function Records(ms: seq<Method>): seq<Byte> {
    if ms == [] then [] else Record(ms[0]) + Records(ms[1..])
  }

  /** The result of the built-in synchronisation method. */
  function Table(ms: seq<Method>): seq<Byte> {
    METHODS + LE(|ms|, 4) + Records(ms)
  }

  // ---- Reading --------------------------------------------------------------------

  datatype RecordParse = RecordOutOfBounds | BadRecord | RecordRead(m: Method, next: nat)
  datatype TableParse = TableOutOfBounds | TableRead(ok: bool, ms: seq<Method>, next: nat)

  /** The name, the parameters and the return type, from the octet that holds the name's length. */
  function ReadSignature(b: seq<Byte>, i: nat, id: nat): (r: RecordParse)
    requires i <= |b|
    ensures r.RecordRead? ==> i < r.next <= |b|
  {
    if i >= |b| then RecordOutOfBounds
    else
      var j := i + 1 + b[i];
      if j >= |b| then RecordOutOfBounds
      else
        var k := j + 1 + b[j];
        if k >= |b| then RecordOutOfBounds
        else RecordRead(Method(b[i + 1..j], id, b[j + 1..k], b[k]), k + 1)
  }

  /** One turn of the client's loop over the records. */
  function ReadRecord(b: seq<Byte>, i: nat): (r: RecordParse)
    requires i <= |b|
    ensures r.RecordRead? ==> i < r.next <= |b|
  {
    if i + 10 > |b| then RecordOutOfBounds
    else if b[i..i + 6] != METHOD then BadRecord
    else ReadSignature(b, i + 10, FromLE(b[i + 6..i + 10]))
  }

  function ReadRecords(n: nat, b: seq<Byte>, i: nat, acc: seq<Method>): TableParse
    requires i <= |b|
    decreases n
  {
    if n == 0 then TableRead(true, acc, i)
    else
      match ReadRecord(b, i)
      case RecordOutOfBounds => TableOutOfBounds
      case BadRecord => TableRead(false, acc, i)
      case RecordRead(m, j) => ReadRecords(n - 1, b, j, acc + [m])
  }

  /** The client's reading of a table: `ms` are the records read until it was done or gave up. */
  function ReadTable(b: seq<Byte>): TableParse {
    if |b| < 11 || b[..7] != METHODS || FromLE(b[7..11]) == 0 then TableRead(false, [], 0)
    else ReadRecords(FromLE(b[7..11]), b, 11, [])
  }

  // ---- Round trip -----------------------------------------------------------------

  predicate Short(m: Method) { |m.name| <= 255 && |m.params| <= 255 }

  predicate IdFits(m: Method) { m.id < Pow256(4) }

  /** The part of a record behind the ID. */
  function SignaturePart(m: Method): seq<Byte> {
    [|m.name| % 256] + m.name + ([|m.params| % 256] + m.params[..|m.params| % 256] + [m.ret])
  }

  lemma RecordParts(m: Method)
    ensures Record(m) == METHOD + LE(m.id, 4) + SignaturePart(m)
  {
  }

  lemma RecordLayout(m: Method, b: seq<Byte>, i: nat)
    requires IdFits(m) && At(b, i, Record(m))
    ensures At(b, i + 10, SignaturePart(m)) && |Record(m)| == 10 + |SignaturePart(m)|
    ensures ReadRecord(b, i) == ReadSignature(b, i + 10, m.id)
  {
    RecordParts(m);
    AtConcat(b, i, METHOD + LE(m.id, 4), SignaturePart(m));
    AtConcat(b, i, METHOD, LE(m.id, 4));
    AtSlice(b, i, METHOD);
    AtSlice(b, i + 6, LE(m.id, 4));
    LERoundTrip(m.id, 4);
  }

  lemma SignatureLayout(m: Method, b: seq<Byte>, i: nat)
    requires At(b, i, SignaturePart(m))
    ensures var j := i + 1 + |m.name|; var n := |m.params| % 256;
      && j + 2 + n <= |b| && b[i] == |m.name| % 256 && b[i + 1..j] == m.name
      && b[j] == n && b[j + 1..j + 1 + n] == m.params[..n] && b[j + 1 + n] == m.ret
    ensures |SignaturePart(m)| == 3 + |m.name| + |m.params| % 256
  {
    var ps := m.params[..|m.params| % 256];
    var j := i + 1 + |m.name|;
    AtConcat3(b, i, [|m.name| % 256], m.name, [|ps|] + ps + [m.ret]);
    AtConcat3(b, j, [|ps|], ps, [m.ret]);
    AtFirst(b, i, [|m.name| % 256]);
    AtFirst(b, j, [|ps|]);
    AtFirst(b, j + 1 + |ps|, [m.ret]);
    AtSlice(b, i + 1, m.name);
    AtSlice(b, j + 1, ps);
  }

  lemma ReadPrintedSignature(m: Method, b: seq<Byte>, i: nat)
    requires At(b, i, SignaturePart(m))
    ensures Short(m) ==> ReadSignature(b, i, m.id) == RecordRead(m, i + |SignaturePart(m)|)
    ensures !Short(m) && ReadSignature(b, i, m.id).RecordRead? ==> ReadSignature(b, i, m.id).m != m
  {
    SignatureLayout(m, b, i);
    if !Short(m) && ReadSignature(b, i, m.id).RecordRead? {
      assert |ReadSignature(b, i, m.id).m.name| == |m.name| % 256;
    }
  }

  /** A printed record is read back, with the index just behind it, if and only if neither the name
      nor the parameter list is longer than 255. */
  lemma RecordRoundTrip(m: Method, b: seq<Byte>, i: nat)
    requires IdFits(m) && At(b, i, Record(m))
    ensures !ReadRecord(b, i).BadRecord?
    ensures Short(m) ==> ReadRecord(b, i) == RecordRead(m, i + |Record(m)|)
    ensures !Short(m) && ReadRecord(b, i).RecordRead? ==> ReadRecord(b, i).m != m
  {
    RecordLayout(m, b, i);
    ReadPrintedSignature(m, b, i + 10);
  }

  lemma {:induction false} ReadRecordsExtend(n: nat, b: seq<Byte>, i: nat, acc: seq<Method>)
    requires i <= |b| && ReadRecords(n, b, i, acc).TableRead?
    ensures acc <= ReadRecords(n, b, i, acc).ms
    decreases n
  {
    if n == 0 {
    } else if ReadRecord(b, i).RecordRead? {
      var r := ReadRecord(b, i);
      ReadRecordsExtend(n - 1, b, r.next, acc + [r.m]);
    }
  }

  predicate AllShort(ms: seq<Method>) { forall m :: m in ms ==> Short(m) }

  predicate AllIdsFit(ms: seq<Method>) { forall m :: m in ms ==> IdFits(m) }

  /** Printed records are read back one after the other, if and only if all of them are short. */
  ghost predicate ReadBack(ms: seq<Method>, b: seq<Byte>, i: nat, end: nat, acc: seq<Method>)
    requires i <= |b|
  {
    var r := ReadRecords(|ms|, b, i, acc);
    if AllShort(ms) then r == TableRead(true, acc + ms, end) else r.TableRead? ==> r.ms != acc + ms
  }

  lemma {:induction false} ReadPrintedRecords(ms: seq<Method>, b: seq<Byte>, i: nat, end: nat, acc: seq<Method>)
    requires AllIdsFit(ms) && At(b, i, Records(ms)) && end == i + |Records(ms)|
    ensures i <= |b| && ReadBack(ms, b, i, end, acc)
    decreases |ms|
  {
    if ms == [] {
      assert acc + ms == acc;
    } else {
      AtConcat(b, i, Record(ms[0]), Records(ms[1..]));
      RecordRoundTrip(ms[0], b, i);
      AllOfBoth(ms);
      if Short(ms[0]) {
        var j := i + |Record(ms[0])|;
        ReadPrintedRecords(ms[1..], b, j, end, acc + [ms[0]]);
        ReadBackTurn(ms, b, i, j, end, acc);
      } else {
        WrongRecordStays(ms, b, i, acc);
      }
    }
  }

  lemma ReadBackTurn(ms: seq<Method>, b: seq<Byte>, i: nat, j: nat, end: nat, acc: seq<Method>)
    requires ms != [] && Short(ms[0]) && i <= j <= |b| && ReadRecord(b, i) == RecordRead(ms[0], j)
    requires ReadBack(ms[1..], b, j, end, acc + [ms[0]])
    ensures ReadBack(ms, b, i, end, acc)
  {
    AllOfBoth(ms);
    assert acc + [ms[0]] + ms[1..] == acc + ms;
  }

  lemma AllOfBoth(ms: seq<Method>)
    requires ms != []
    ensures AllIdsFit(ms) <==> IdFits(ms[0]) && AllIdsFit(ms[1..])
    ensures AllShort(ms) <==> Short(ms[0]) && AllShort(ms[1..])
  {
    assert forall x :: x in ms <==> x == ms[0] || x in ms[1..];
  }

  lemma WrongRecordStays(ms: seq<Method>, b: seq<Byte>, i: nat, acc: seq<Method>)
    requires ms != [] && i <= |b| && (ReadRecord(b, i).RecordRead? ==> ReadRecord(b, i).m != ms[0])
    ensures var r := ReadRecords(|ms|, b, i, acc); r.TableRead? ==> r.ms != acc + ms
  {
    var t := ReadRecord(b, i);
    if t.RecordRead? {
      var r := ReadRecords(|ms| - 1, b, t.next, acc + [t.m]);
      if r.TableRead? {
        ReadRecordsExtend(|ms| - 1, b, t.next, acc + [t.m]);
        assert r.ms[|acc|] == (acc + [t.m])[|acc|] == t.m;
        assert (acc + ms)[|acc|] == ms[0];
      }
    } else if t.BadRecord? {
      assert |acc| != |acc + ms|;
    }
  }

  lemma CountLayout(n: nat, rest: seq<Byte>, b: seq<Byte>)
    requires n < Pow256(4) && b == METHODS + LE(n, 4) + rest
    ensures 11 <= |b| && b[..7] == METHODS && FromLE(b[7..11]) == n && At(b, 11, rest) && |b| == 11 + |rest|
  {
    AtWhole(b);
    AtConcat3(b, 0, METHODS, LE(n, 4), rest);
    AtSlice(b, 0, METHODS);
    ReadInteger(n, 4, b, 7);
  }

  lemma TableLayout(ms: seq<Method>, b: seq<Byte>)
    requires |ms| < Pow256(4) && b == METHODS + LE(|ms|, 4) + Records(ms)
    ensures 11 <= |b| && b[..7] == METHODS && FromLE(b[7..11]) == |ms|
    ensures At(b, 11, Records(ms)) && |b| == 11 + |Records(ms)|
  {
    CountLayout(|ms|, Records(ms), b);
  }

  /** Methods whose records are read back. */
  predicate AllGood(ms: seq<Method>) {
    ms == [] || (IdFits(ms[0]) && Short(ms[0]) && AllGood(ms[1..]))
  }

  lemma FirstRecord(ms: seq<Method>, b: seq<Byte>, i: nat, end: nat) returns (j: nat)
    requires ms != [] && AllGood(ms) && At(b, i, Records(ms)) && end == i + |Records(ms)|
    ensures i <= j <= |b| && ReadRecord(b, i) == RecordRead(ms[0], j)
    ensures At(b, j, Records(ms[1..])) && end == j + |Records(ms[1..])|
  {
    j := i + |Record(ms[0])|;
    AtConcat(b, i, Record(ms[0]), Records(ms[1..]));
    RecordRoundTrip(ms[0], b, i);
  }

  /** The records of `ms` are read one after the other, from `i` to `end`. */
  ghost predicate RecordsAt(b: seq<Byte>, i: nat, ms: seq<Method>, end: nat)
    decreases |ms|
  {
    i <= |b| &&
    if ms == [] then i == end
    else
      && ReadRecord(b, i).RecordRead? && ReadRecord(b, i).m == ms[0]
      && RecordsAt(b, ReadRecord(b, i).next, ms[1..], end)
  }

  lemma {:induction false} GoodRecordsAt(ms: seq<Method>, b: seq<Byte>, i: nat, end: nat)
    requires AllGood(ms) && At(b, i, Records(ms)) && end == i + |Records(ms)|
    ensures RecordsAt(b, i, ms, end)
    decreases |ms|
  {
    if ms == [] {
    } else {
      var j := FirstRecord(ms, b, i, end);
      GoodRecordsAt(ms[1..], b, j, end);
    }
  }

  /** Behind such records stands something that does not start like a record: the reading fails there, and
      keeps what it has read. */
  lemma {:induction false} ReadUntil(ms: seq<Method>, n: nat, b: seq<Byte>, i: nat, end: nat, acc: seq<Method>)
    requires RecordsAt(b, i, ms, end) && |ms| < n && end <= |b| && ReadRecord(b, end).BadRecord?
    ensures i <= |b| && ReadRecords(n, b, i, acc) == TableRead(false, acc + ms, end)
    decreases |ms|
  {
    if ms == [] {
      assert acc + ms == acc;
    } else {
      ReadUntil(ms[1..], n - 1, b, ReadRecord(b, i).next, end, acc + [ms[0]]);
      assert acc + [ms[0]] + ms[1..] == acc + ms;
    }
  }

  lemma StopsAt(ms: seq<Method>, x: seq<Byte>, b: seq<Byte>, i: nat, records: seq<Byte>, end: nat)
    requires AllGood(ms) && |x| >= 10 && x[..6] != METHOD
    requires records == Records(ms) && At(b, i, records + x) && end == i + |records|
    ensures RecordsAt(b, i, ms, end) && end <= |b| && ReadRecord(b, end).BadRecord?
  {
    AtConcat(b, i, records, x);
    BadRecordAt(b, end, x);
    GoodRecordsAt(ms, b, i, end);
  }

  lemma ReadFromStart(ms: seq<Method>, n: nat, b: seq<Byte>, i: nat, end: nat)
    requires RecordsAt(b, i, ms, end) && |ms| < n && end <= |b| && ReadRecord(b, end).BadRecord?
    ensures i <= |b| && ReadRecords(n, b, i, []) == TableRead(false, ms, end)
  {
    ReadUntil(ms, n, b, i, end, []);
    assert [] + ms == ms;
  }

  /** Behind some good records comes one that does not start like a record: the reading fails, and keeps what
      it has read. */
  lemma ReadGivesUp(ms: seq<Method>, n: nat, x: seq<Byte>, b: seq<Byte>)
    requires AllGood(ms) && |ms| < n && |x| >= 10 && x[..6] != METHOD
    requires 11 <= |b| && b[..7] == METHODS && FromLE(b[7..11]) == n && At(b, 11, Records(ms) + x)
    ensures ReadTable(b) == TableRead(false, ms, 11 + |Records(ms)|)
  {
    var end := 11 + |Records(ms)|;
    StopsAt(ms, x, b, 11, Records(ms), end);
    TableStops(ms, n, b, end);
  }

  lemma TableStops(ms: seq<Method>, n: nat, b: seq<Byte>, end: nat)
    requires 11 <= |b| && b[..7] == METHODS && FromLE(b[7..11]) == n && |ms| < n
    requires RecordsAt(b, 11, ms, end) && end <= |b| && ReadRecord(b, end).BadRecord?
    ensures ReadTable(b) == TableRead(false, ms, end)
  {
    ReadFromStart(ms, n, b, 11, end);
  }

  lemma BadRecordAt(b: seq<Byte>, i: nat, x: seq<Byte>)
    requires At(b, i, x) && |x| >= 10 && x[..6] != METHOD
    ensures i <= |b| && ReadRecord(b, i) == BadRecord
  {
    AtSlice(b, i, x);
    assert b[i..i + |x|][..6] == b[i..i + 6];
  }

  /**
   * The table of any non-empty list of methods is read back as that list, up to the last octet, if
   * and only if every name and every parameter list has at most 255 entries.
   */
  lemma TableRoundTrip(ms: seq<Method>, b: seq<Byte>)
    requires ms != [] && |ms| < Pow256(4) && AllIdsFit(ms) && b == Table(ms)
    ensures ReadTable(b) == TableRead(true, ms, |b|) <==> AllShort(ms)
  {
    TableLayout(ms, b);
    ReadPrintedRecords(ms, b, 11, |b|, []);
    assert [] + ms == ms;
  }

  /** A name of 256 octets: the client reads no name, and takes the parameters and the return type from
      the octets of the name. */
  lemma LongNameLost(m: Method, b: seq<Byte>, i: nat)
    requires IdFits(m) && |m.name| == 256 && m.name[0] <= 254 && At(b, i, Record(m))
    ensures var k := m.name[0];
      ReadRecord(b, i) == RecordRead(Method([], m.id, m.name[1..1 + k], m.name[1 + k]), i + 13 + k)
  {
    RecordLayout(m, b, i);
    SignatureLayout(m, b, i + 10);
    NameOctets(m.name, b, i + 11, 1 + m.name[0]);
    assert b[i + 11..i + 11] == [];
  }

  lemma NameOctets(name: Name, b: seq<Byte>, i: nat, k: nat)
    requires 1 <= k < |name| && i + |name| <= |b| && b[i..i + |name|] == name
    ensures b[i] == name[0] && b[i + 1..i + k] == name[1..k] && b[i + k] == name[k]
  {
    assert forall j :: 0 <= j < |name| ==> b[i + j] == name[j];
  }
}
