/** NymphRPC values, their wire encoding and the size that is computed ahead of it. */
module Values {
  import opened Bytes

  // Internal typecodes, as they stand on the wire.
  const NONE: Byte := 0x01
  const BOOLEAN_FALSE: Byte := 0x02
  const BOOLEAN_TRUE: Byte := 0x03
  const ARRAY: Byte := 0x0e
  const EMPTY_STRING: Byte := 0x0f
  const STRING: Byte := 0x10
  const STRUCT: Byte := 0x11

  /** The fixed-width types. A number is its bit pattern: memory is copied as it stands. */
  datatype Kind = U8 | S8 | U16 | S16 | U32 | S32 | U64 | S64 | F32 | F64

  function Width(k: Kind): nat {
    match k
    case U8 | S8 => 1
    case U16 | S16 => 2
    case U32 | S32 | F32 => 4
    case U64 | S64 | F64 => 8
  }

  /** Internal typecode of a fixed-width type. */
  function Code(k: Kind): Byte {
    match k
    case U8 => 0x04 case S8 => 0x05 case U16 => 0x06 case S16 => 0x07 case U32 => 0x08
    case S32 => 0x09 case U64 => 0x0a case S64 => 0x0b case F32 => 0x0c case F64 => 0x0d
  }

  /**
   * A NymphType and everything below it. `Null` is a NymphType that was never given a value.
   * The fields of a struct are listed in the iteration order of its std::map, each under
   * the text of its key object; nothing forces that text to equal the map's own key.
   */
  datatype Value =
    | Null
    | Bool(b: bool)
    | Num(kind: Kind, bits: nat)
    | Str(chars: seq<Byte>)
    | Array(elems: seq<Value>)
    | Struct(fields: seq<Field>)

  datatype Field = Field(key: seq<Byte>, val: Value)

  // ---- External types -------------------------------------------------------------

  type TypeCode = Byte

  const TYPE_NULL: TypeCode := 0
  const TYPE_STRING: TypeCode := 13
  const TYPE_ANY: TypeCode := 15

  /** NymphType::valuetype(), as the number of the NymphTypes enumerator. */
  function TypeOf(v: Value): TypeCode {
    match v
    case Null => TYPE_NULL
    case Array(_) => 1
    case Bool(_) => 2
    case Num(k, _) => (match k
      case U8 => 3 case S8 => 4 case U16 => 5 case S16 => 6 case U32 => 7
      case S32 => 8 case U64 => 9 case S64 => 10 case F32 => 11 case F64 => 12)
    case Str(_) => TYPE_STRING
    case Struct(_) => 14
  }

  // ---- Sizes ----------------------------------------------------------------------

  function BinaryStringLength(len: nat): nat {
    if len <= 0xFF then 3 + len
    else if len <= 0xFFFF then 4 + len
    else if len <= 0xFFFF_FFFF then 6 + len
    else 10 + len
  }

  /** NymphType::bytes(): the `length` field that the constructors compute. */
  function Size(v: Value): nat {
    match v
    case Null => 0
    case Bool(_) => 1
    case Num(k, _) => 1 + Width(k)
    case Str(c) => BinaryStringLength(|c|)
    case Array(es) => SizeAll(es) + 10
    case Struct(fs) => SizeFields(fs) + 2
  }

  function SizeAll(vs: seq<Value>): nat {
    if vs == [] then 0 else Size(vs[0]) + SizeAll(vs[1..])
  }

  function SizeFields(fs: seq<Field>): nat {
    if fs == [] then 0 else BinaryStringLength(|fs[0].key|) + Size(fs[0].val) + SizeFields(fs[1..])
  }

  // ---- Encoding -------------------------------------------------------------------

  /** The narrowest unsigned type that holds a string's length. */
  function LengthKind(len: nat): Kind {
    if len <= 0xFF then U8 else if len <= 0xFFFF then U16 else if len <= 0xFFFF_FFFF then U32 else U64
  }

  function LengthField(len: nat): seq<Byte> {
    [Code(LengthKind(len))] + LE(len, Width(LengthKind(len)))
  }

  function EncodeString(c: seq<Byte>): seq<Byte> {
    if c == [] then [EMPTY_STRING] else [STRING] + LengthField(|c|) + c
  }

  /** What NymphType::serialize writes. A Null writes nothing at all. */
  function Encode(v: Value): seq<Byte> {
    match v
    case Null => []
    case Bool(b) => [if b then BOOLEAN_TRUE else BOOLEAN_FALSE]
    case Num(k, n) => [Code(k)] + LE(n, Width(k))
    case Str(c) => EncodeString(c)
    case Array(es) => [ARRAY] + LE(|es|, 8) + EncodeAll(es) + [NONE]
    case Struct(fs) => [STRUCT] + EncodeFields(fs) + [NONE]
  }

  function EncodeAll(vs: seq<Value>): seq<Byte> {
    if vs == [] then [] else Encode(vs[0]) + EncodeAll(vs[1..])
  }

  function EncodeFields(fs: seq<Field>): seq<Byte> {
    if fs == [] then [] else EncodeField(fs[0]) + EncodeFields(fs[1..])
  }

  function EncodeField(f: Field): seq<Byte> {
    EncodeString(f.key) + Encode(f.val)
  }

  // ---- Which values ---------------------------------------------------------------

  /** Strings carry a 32-bit length. */
  predicate StringFits(c: seq<Byte>) { |c| <= 0xFFFF_FFFF }

  /** Every number fits its type, every length its field, and no Null stands anywhere. */
  predicate InRange(v: Value) {
    match v
    case Null => false
    case Bool(_) => true
    case Num(k, n) => n < Pow256(Width(k))
    case Str(c) => StringFits(c)
    case Array(es) => |es| < Pow256(8) && AllInRange(es)
    case Struct(fs) => FieldsInRange(fs)
  }

  predicate AllInRange(vs: seq<Value>) {
    vs == [] || (InRange(vs[0]) && AllInRange(vs[1..]))
  }

  predicate FieldsInRange(fs: seq<Field>) {
    fs == [] || (StringFits(fs[0].key) && InRange(fs[0].val) && FieldsInRange(fs[1..]))
  }

  /** No struct, at any depth, has an empty key. */
  predicate NoEmptyKeys(v: Value) {
    match v
    case Array(es) => NoEmptyKeysAll(es)
    case Struct(fs) => NoEmptyKeysFields(fs)
    case _ => true
  }

  predicate NoEmptyKeysAll(vs: seq<Value>) {
    vs == [] || (NoEmptyKeys(vs[0]) && NoEmptyKeysAll(vs[1..]))
  }

  predicate NoEmptyKeysFields(fs: seq<Field>) {
    fs == [] || (fs[0].key != [] && NoEmptyKeys(fs[0].val) && NoEmptyKeysFields(fs[1..]))
  }

  // ---- The size law ---------------------------------------------------------------

  /** How many empty strings stand in a tree, struct keys included. */
  function EmptyStrings(v: Value): nat {
    match v
    case Str(c) => IsEmptyString(c)
    case Array(es) => EmptyStringsAll(es)
    case Struct(fs) => EmptyStringsFields(fs)
    case _ => 0
  }

  function IsEmptyString(c: seq<Byte>): nat { if c == [] then 1 else 0 }

  function EmptyStringsAll(vs: seq<Value>): nat {
    if vs == [] then 0 else EmptyStrings(vs[0]) + EmptyStringsAll(vs[1..])
  }

  function EmptyStringsFields(fs: seq<Field>): nat {
    if fs == [] then 0
    else IsEmptyString(fs[0].key) + EmptyStrings(fs[0].val) + EmptyStringsFields(fs[1..])
  }

  lemma EncodeStringLength(c: seq<Byte>)
    ensures |EncodeString(c)| + 2 * IsEmptyString(c) == BinaryStringLength(|c|)
  {
  }

  /** The announced size exceeds what is written by 2 for each empty string, and by nothing else. */
  lemma {:induction false} SizeLaw(v: Value)
    ensures |Encode(v)| + 2 * EmptyStrings(v) == Size(v)
  {
    match v
    case Null =>
    case Bool(_) =>
    case Num(_, _) =>
    case Str(c) => EncodeStringLength(c);
    case Array(es) => SizeLawAll(es);
    case Struct(fs) => SizeLawFields(fs);
  }

  lemma {:induction false} SizeLawAll(vs: seq<Value>)
    ensures |EncodeAll(vs)| + 2 * EmptyStringsAll(vs) == SizeAll(vs)
  {
    if vs == [] {
    } else {
      SizeLaw(vs[0]);
      SizeLawAll(vs[1..]);
    }
  }

  lemma {:induction false} SizeLawFields(fs: seq<Field>)
    ensures |EncodeFields(fs)| + 2 * EmptyStringsFields(fs) == SizeFields(fs)
  {
    if fs == [] {
    } else {
      EncodeStringLength(fs[0].key);
      SizeLaw(fs[0].val);
      SizeLawFields(fs[1..]);
    }
  }

  // ---- Concatenation --------------------------------------------------------------

  lemma {:induction false} EncodeAllConcat(vs: seq<Value>, ws: seq<Value>)
    ensures EncodeAll(vs + ws) == EncodeAll(vs) + EncodeAll(ws)
  {
    if vs == [] {
      assert vs + ws == ws;
    } else {
      assert (vs + ws)[1..] == vs[1..] + ws;
      EncodeAllConcat(vs[1..], ws);
    }
  }

  lemma {:induction false} EncodeFieldsConcat(fs: seq<Field>, gs: seq<Field>)
    ensures EncodeFields(fs + gs) == EncodeFields(fs) + EncodeFields(gs)
  {
    if fs == [] {
      assert fs + gs == gs;
    } else {
      assert (fs + gs)[1..] == fs[1..] + gs;
      EncodeFieldsConcat(fs[1..], gs);
    }
  }

  lemma EncodeOneField(f: Field)
    ensures EncodeFields([f]) == EncodeField(f)
  {
    assert EncodeFields([f]) == EncodeField(f) + EncodeFields([]);
  }

  lemma {:induction false} SizeAllConcat(vs: seq<Value>, ws: seq<Value>)
    ensures SizeAll(vs + ws) == SizeAll(vs) + SizeAll(ws)
  {
    if vs == [] {
      assert vs + ws == ws;
    } else {
      assert (vs + ws)[1..] == vs[1..] + ws;
      SizeAllConcat(vs[1..], ws);
    }
  }

  lemma {:induction false} SizeFieldsConcat(fs: seq<Field>, gs: seq<Field>)
    ensures SizeFields(fs + gs) == SizeFields(fs) + SizeFields(gs)
  {
    if fs == [] {
      assert fs + gs == gs;
    } else {
      assert (fs + gs)[1..] == fs[1..] + gs;
      SizeFieldsConcat(fs[1..], gs);
    }
  }

  // ---- Unambiguity ----------------------------------------------------------------

  /** An encoded value is never empty and never starts like a terminator. */
  lemma StartsWithTypecode(v: Value)
    requires InRange(v)
    ensures Encode(v) != [] && Encode(v)[0] != NONE
  {
  }

  lemma LEInjective(m: nat, n: nat, w: nat)
    requires m < Pow256(w) && n < Pow256(w) && LE(m, w) == LE(n, w)
    ensures m == n
  {
    LERoundTrip(m, w);
    LERoundTrip(n, w);
  }

  lemma Regroup(a: seq<Byte>, b: seq<Byte>, c: seq<Byte>, x: seq<Byte>)
    ensures a + b + c + x == a + (b + (c + x))
  {
  }

  lemma LengthUnambiguous(m: nat, n: nat, x: seq<Byte>, y: seq<Byte>)
    requires m < Pow256(8) && n < Pow256(8)
    requires LengthField(m) + x == LengthField(n) + y
    ensures m == n && x == y
  {
    Pow256Values();
    var a, b := LengthField(m), LengthField(n);
    assert a[0] == (a + x)[0] == (b + y)[0] == b[0];
    SplitSame(a, b, x, y);
    assert a[1..] == b[1..];
    LEInjective(m, n, |a| - 1);
  }

  lemma StringUnambiguous(c: seq<Byte>, d: seq<Byte>, x: seq<Byte>, y: seq<Byte>)
    requires StringFits(c) && StringFits(d)
    requires EncodeString(c) + x == EncodeString(d) + y
    ensures c == d && x == y
  {
    FirstSame(EncodeString(c), EncodeString(d), x, y);
    if c != [] {
      Pow256Values();
      Regroup([STRING], LengthField(|c|), c, x);
      Regroup([STRING], LengthField(|d|), d, y);
      SplitSame([STRING], [STRING], LengthField(|c|) + (c + x), LengthField(|d|) + (d + y));
      LengthUnambiguous(|c|, |d|, c + x, d + y);
      SplitSame(c, d, x, y);
    } else {
      SplitSame([EMPTY_STRING], [EMPTY_STRING], x, y);
    }
  }

  lemma BoolUnambiguous(v: Value, w: Value, x: seq<Byte>, y: seq<Byte>)
    requires v.Bool? && w.Bool? && Encode(v) + x == Encode(w) + y
    ensures v == w && x == y
  {
    SplitSame(Encode(v), Encode(w), x, y);
  }

  lemma NumberUnambiguous(v: Value, w: Value, x: seq<Byte>, y: seq<Byte>)
    requires InRange(v) && InRange(w) && v.Num? && w.Num? && v.kind == w.kind
    requires Encode(v) + x == Encode(w) + y
    ensures v == w && x == y
  {
    SplitSame(Encode(v), Encode(w), x, y);
    assert Encode(v)[1..] == LE(v.bits, Width(v.kind));
    assert Encode(w)[1..] == LE(w.bits, Width(w.kind));
    LEInjective(v.bits, w.bits, Width(v.kind));
  }

  /** The external type that a leading typecode announces. */
  function AnnouncedType(tc: Byte): TypeCode {
    if tc == BOOLEAN_FALSE || tc == BOOLEAN_TRUE then 2
    else if 0x04 <= tc <= 0x0d then tc - 1
    else if tc == ARRAY then 1
    else if tc == STRUCT then 14
    else if tc == STRING || tc == EMPTY_STRING then TYPE_STRING
    else TYPE_NULL
  }

  lemma FirstOctet(v: Value)
    requires InRange(v)
    ensures Encode(v) != [] && AnnouncedType(Encode(v)[0]) == TypeOf(v)
  {
  }

  lemma SameType(v: Value, w: Value, x: seq<Byte>, y: seq<Byte>)
    requires InRange(v) && InRange(w)
    requires Encode(v) + x == Encode(w) + y
    ensures TypeOf(v) == TypeOf(w)
  {
    FirstOctet(v);
    FirstOctet(w);
    FirstSame(Encode(v), Encode(w), x, y);
  }

  lemma ArrayHead(es: seq<Value>, fs: seq<Value>, x: seq<Byte>, y: seq<Byte>)
    requires Encode(Array(es)) + x == Encode(Array(fs)) + y
    ensures EncodeAll(es) + ([NONE] + x) == EncodeAll(fs) + ([NONE] + y)
  {
    var a, b := [ARRAY] + LE(|es|, 8), [ARRAY] + LE(|fs|, 8);
    Regroup(a, EncodeAll(es), [NONE], x);
    Regroup(b, EncodeAll(fs), [NONE], y);
    SplitSame(a, b, EncodeAll(es) + ([NONE] + x), EncodeAll(fs) + ([NONE] + y));
  }

  lemma StructHead(fs: seq<Field>, gs: seq<Field>, x: seq<Byte>, y: seq<Byte>)
    requires Encode(Struct(fs)) + x == Encode(Struct(gs)) + y
    ensures EncodeFields(fs) + ([NONE] + x) == EncodeFields(gs) + ([NONE] + y)
  {
    Regroup([STRUCT], EncodeFields(fs), [NONE], x);
    Regroup([STRUCT], EncodeFields(gs), [NONE], y);
    SplitSame([STRUCT], [STRUCT], EncodeFields(fs) + ([NONE] + x), EncodeFields(gs) + ([NONE] + y));
  }

  /** No encoding is a proper prefix of another: an octet string starts with at most one value. */
  lemma {:induction false} Unambiguous(v: Value, w: Value, x: seq<Byte>, y: seq<Byte>)
    requires InRange(v) && InRange(w)
    requires Encode(v) + x == Encode(w) + y
    ensures v == w && x == y
    decreases v, 1
  {
    SameType(v, w, x, y);
    match v
    case Bool(_) =>
      BoolUnambiguous(v, w, x, y);
    case Num(_, _) =>
      NumberUnambiguous(v, w, x, y);
    case Str(c) =>
      StringUnambiguous(c, w.chars, x, y);
    case Array(es) =>
      ArrayHead(es, w.elems, x, y);
      SequenceUnambiguous(es, w.elems, x, y);
    case Struct(fs) =>
      StructHead(fs, w.fields, x, y);
      FieldsUnambiguous(fs, w.fields, x, y);
  }

  /** A terminated run of values, as in a message body, can be cut into values in one way only. */
  lemma {:induction false} SequenceUnambiguous(vs: seq<Value>, ws: seq<Value>, x: seq<Byte>, y: seq<Byte>)
    requires AllInRange(vs) && AllInRange(ws)
    requires EncodeAll(vs) + ([NONE] + x) == EncodeAll(ws) + ([NONE] + y)
    ensures vs == ws && x == y
    decreases vs, 0
  {
    StopsTogether(vs, ws, x, y);
    if vs == [] {
      assert [] + ([NONE] + x) == [NONE] + x && [] + ([NONE] + y) == [NONE] + y;
      SplitSame([NONE], [NONE], x, y);
    } else {
      var x', y' := EncodeAll(vs[1..]) + ([NONE] + x), EncodeAll(ws[1..]) + ([NONE] + y);
      assert EncodeAll(vs) + ([NONE] + x) == Encode(vs[0]) + x';
      assert EncodeAll(ws) + ([NONE] + y) == Encode(ws[0]) + y';
      Unambiguous(vs[0], ws[0], x', y');
      SequenceUnambiguous(vs[1..], ws[1..], x, y);
      assert vs == [vs[0]] + vs[1..] && ws == [ws[0]] + ws[1..];
    }
  }

  lemma StopsTogether(vs: seq<Value>, ws: seq<Value>, x: seq<Byte>, y: seq<Byte>)
    requires AllInRange(vs) && AllInRange(ws)
    requires EncodeAll(vs) + ([NONE] + x) == EncodeAll(ws) + ([NONE] + y)
    ensures vs == [] <==> ws == []
  {
    var l, r := EncodeAll(vs) + ([NONE] + x), EncodeAll(ws) + ([NONE] + y);
    if vs != [] { StartsWithTypecode(vs[0]); assert l[0] == Encode(vs[0])[0]; }
    if ws != [] { StartsWithTypecode(ws[0]); assert r[0] == Encode(ws[0])[0]; }
  }

  lemma {:induction false} FieldsUnambiguous(fs: seq<Field>, gs: seq<Field>, x: seq<Byte>, y: seq<Byte>)
    requires FieldsInRange(fs) && FieldsInRange(gs)
    requires EncodeFields(fs) + ([NONE] + x) == EncodeFields(gs) + ([NONE] + y)
    ensures fs == gs && x == y
    decreases fs, 0
  {
    FieldsStopTogether(fs, gs, x, y);
    if fs == [] {
      assert [] + ([NONE] + x) == [NONE] + x && [] + ([NONE] + y) == [NONE] + y;
      SplitSame([NONE], [NONE], x, y);
    } else {
      var x', y' := EncodeFields(fs[1..]) + ([NONE] + x), EncodeFields(gs[1..]) + ([NONE] + y);
      Regroup(EncodeString(fs[0].key), Encode(fs[0].val), EncodeFields(fs[1..]), [NONE] + x);
      Regroup(EncodeString(gs[0].key), Encode(gs[0].val), EncodeFields(gs[1..]), [NONE] + y);
      StringUnambiguous(fs[0].key, gs[0].key, Encode(fs[0].val) + x', Encode(gs[0].val) + y');
      Unambiguous(fs[0].val, gs[0].val, x', y');
      FieldsUnambiguous(fs[1..], gs[1..], x, y);
      assert fs == [fs[0]] + fs[1..] && gs == [gs[0]] + gs[1..];
    }
  }

  lemma FieldsStopTogether(fs: seq<Field>, gs: seq<Field>, x: seq<Byte>, y: seq<Byte>)
    requires EncodeFields(fs) + ([NONE] + x) == EncodeFields(gs) + ([NONE] + y)
    ensures fs == [] <==> gs == []
  {
    var l, r := EncodeFields(fs) + ([NONE] + x), EncodeFields(gs) + ([NONE] + y);
    if fs != [] { assert l[0] == EncodeString(fs[0].key)[0]; }
    if gs != [] { assert r[0] == EncodeString(gs[0].key)[0]; }
  }
}
