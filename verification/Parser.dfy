/** NymphType::parseValue as a function of the buffer, and the round trip through it. */
module Parser {
  import opened Bytes
  import opened Values

  // ---- std::map<std::string, NymphPair> as the list of its entries in iteration order --

  /** std::less<std::string>: lexicographic on unsigned octets. */
  predicate Less(a: seq<Byte>, b: seq<Byte>) {
    b != [] && (a == [] || a[0] < b[0] || (a[0] == b[0] && Less(a[1..], b[1..])))
  }

  /** std::map::insert: an entry that is already there stays as it is. */
  function Insert(m: seq<Field>, f: Field): seq<Field> {
    if m == [] then [f]
    else if m[0].key == f.key then m
    else if Less(f.key, m[0].key) then [f] + m
    else [m[0]] + Insert(m[1..], f)
  }

  function InsertAll(m: seq<Field>, fs: seq<Field>): seq<Field>
    decreases |fs|
  {
    if fs == [] then m else InsertAll(Insert(m, fs[0]), fs[1..])
  }

  /** Strictly ascending keys: the lists that are maps. */
  ghost predicate Ascending(m: seq<Field>) {
    forall i, j :: 0 <= i < j < |m| ==> Less(m[i].key, m[j].key)
  }

  /** Two octet strings are alike up to `k`, where the first has ended or has the smaller octet. */
  ghost predicate LowerAt(a: seq<Byte>, b: seq<Byte>, k: nat) {
    k <= |a| && k < |b| && a[..k] == b[..k] && (k == |a| || a[k] < b[k])
  }

  /** The order of std::string, as on the words of a dictionary. */
  lemma {:induction false} LessIff(a: seq<Byte>, b: seq<Byte>)
    ensures Less(a, b) <==> exists k: nat :: LowerAt(a, b, k)
  {
    if b == [] {
    } else if a == [] || a[0] != b[0] {
      if Less(a, b) { assert LowerAt(a, b, 0); }
    } else {
      LessIff(a[1..], b[1..]);
      if Less(a[1..], b[1..]) {
        var k: nat :| LowerAt(a[1..], b[1..], k);
        LowerBehind(a, b, k);
      } else if k: nat :| LowerAt(a, b, k) {
        LowerBehind(a, b, k - 1);
      }
    }
  }

  lemma LowerBehind(a: seq<Byte>, b: seq<Byte>, k: nat)
    requires a != [] && b != [] && a[0] == b[0]
    ensures LowerAt(a, b, k + 1) <==> LowerAt(a[1..], b[1..], k)
  {
    if k < |a| && k + 1 <= |b| {
      assert a[..k + 1] == [a[0]] + a[1..][..k] && b[..k + 1] == [b[0]] + b[1..][..k];
      assert a[..k + 1][1..] == a[1..][..k] && b[..k + 1][1..] == b[1..][..k];
    }
  }

  lemma {:induction false} LessIrreflexive(a: seq<Byte>)
    ensures !Less(a, a)
  {
    if a == [] {
    } else {
      LessIrreflexive(a[1..]);
    }
  }

  lemma {:induction false} LessTotal(a: seq<Byte>, b: seq<Byte>)
    ensures a == b || Less(a, b) || Less(b, a)
  {
    if a == [] || b == [] {
    } else if a[0] == b[0] {
      LessTotal(a[1..], b[1..]);
      assert a == [a[0]] + a[1..] && b == [b[0]] + b[1..];
    }
  }

  lemma {:induction false} LessTransitive(a: seq<Byte>, b: seq<Byte>, c: seq<Byte>)
    requires Less(a, b) && Less(b, c)
    ensures Less(a, c)
  {
    if a == [] {
    } else if a[0] == b[0] == c[0] {
      LessTransitive(a[1..], b[1..], c[1..]);
    }
  }

  // ---- The parser -----------------------------------------------------------------

  /** `ok` is the bool that parseValue returns; `next` is where it leaves the index.
      `OutOfBounds` stands for a read past the end of the buffer, which the source does not guard. */
  datatype Parse = OutOfBounds | Parsed(ok: bool, v: Value, next: nat)
  datatype ElementsParse = ElementsOutOfBounds | Elements(vs: seq<Value>, next: nat)
  datatype FieldsParse = FieldsOutOfBounds | Fields(ok: bool, pairs: seq<Field>, next: nat)

  datatype PairParse = PairOutOfBounds | BadPair(next: nat) | Pair(f: Field, next: nat)

  predicate IsNumberCode(tc: Byte) { 0x04 <= tc <= 0x0d }

  function KindOf(tc: Byte): (k: Kind)
    requires IsNumberCode(tc)
    ensures Code(k) == tc
  {
    match tc
    case 0x04 => U8 case 0x05 => S8 case 0x06 => U16 case 0x07 => S16 case 0x08 => U32
    case 0x09 => S32 case 0x0a => U64 case 0x0b => S64 case 0x0c => F32 case _ => F64
  }

  predicate IsLengthCode(tc: Byte) { tc == Code(U8) || tc == Code(U16) || tc == Code(U32) || tc == Code(U64) }

  function ParseNumber(k: Kind, s: seq<Byte>, i: nat): (r: Parse)
    requires i <= |s|
    ensures r.Parsed? ==> i <= r.next <= |s|
  {
    if i + Width(k) > |s| then OutOfBounds
    else Parsed(true, Num(k, FromLE(s[i..i + Width(k)])), i + Width(k))
  }

  function ParseString(s: seq<Byte>, i: nat): (r: Parse)
    requires i <= |s|
    ensures r.Parsed? ==> i < r.next <= |s| && (r.ok ==> r.v.Str?)
  {
    if i == |s| then OutOfBounds
    else if !IsLengthCode(s[i]) then Parsed(false, Null, i + 1)
    else
      var start := i + 1 + Width(KindOf(s[i]));
      if start > |s| then OutOfBounds
      else
        var len := FromLE(s[i + 1..start]);
        if start + len > |s| then OutOfBounds
        else Parsed(true, Str(s[start..start + len]), start + len)
  }

  /** parseValue(tc, s, i): `tc` has been read already and `i` is the offset after it. */
  function ParseValue(tc: Byte, s: seq<Byte>, i: nat): (r: Parse)
    requires i <= |s|
    ensures r.Parsed? ==> i <= r.next <= |s|
    decreases |s| - i, 4
  {
    if tc == BOOLEAN_FALSE || tc == BOOLEAN_TRUE then Parsed(true, Bool(tc == BOOLEAN_TRUE), i)
    else if IsNumberCode(tc) then ParseNumber(KindOf(tc), s, i)
    else if tc == EMPTY_STRING then Parsed(true, Str([]), i)
    else if tc == STRING then ParseString(s, i)
    else if tc == ARRAY then ParseArray(s, i)
    else if tc == STRUCT then ParseStruct(s, i)
    else Parsed(true, Null, i)
  }

  /** Reading a typecode and then its value, as every caller of parseValue does. */
  function ParseTagged(s: seq<Byte>, i: nat): (r: Parse)
    requires i <= |s|
    ensures r.Parsed? ==> i < r.next <= |s|
    decreases |s| - i, 1
  {
    if i == |s| then OutOfBounds else ParseValue(s[i], s, i + 1)
  }

  function ParseArray(s: seq<Byte>, i: nat): (r: Parse)
    requires i <= |s|
    ensures r.Parsed? ==> i <= r.next <= |s|
    decreases |s| - i, 3
  {
    if i + 8 > |s| then OutOfBounds
    else
      match ParseElements(FromLE(s[i..i + 8]), s, i + 8, [])
      case ElementsOutOfBounds => OutOfBounds
      case Elements(vs, j) =>
        // Whatever octet stands for the terminator is skipped; a wrong one is only logged.
        if j == |s| then OutOfBounds else Parsed(true, Array(vs), j + 1)
  }

  /** The element loop, with `n` elements to go. What parseValue returns for an element is ignored. */
  function ParseElements(n: nat, s: seq<Byte>, i: nat, acc: seq<Value>): (r: ElementsParse)
    requires i <= |s|
    ensures r.Elements? ==> i <= r.next <= |s|
    decreases |s| - i, 2
  {
    if n == 0 then Elements(acc, i)
    else
      match ParseTagged(s, i)
      case OutOfBounds => ElementsOutOfBounds
      case Parsed(_, v, j) => ParseElements(n - 1, s, j, acc + [v])
  }

  function ParseStruct(s: seq<Byte>, i: nat): (r: Parse)
    requires i <= |s|
    ensures r.Parsed? ==> i <= r.next <= |s|
    decreases |s| - i, 3
  {
    match ParseFields(s, i, [])
    case FieldsOutOfBounds => OutOfBounds
    case Fields(ok, ps, j) => Parsed(ok, if ok then Struct(InsertAll([], ps)) else Null, j)
  }

  /** The pair loop, up to and past the terminator: the pairs in the order they are inserted. */
  function ParseFields(s: seq<Byte>, i: nat, acc: seq<Field>): (r: FieldsParse)
    requires i <= |s|
    ensures r.Fields? ==> i <= r.next <= |s|
    decreases |s| - i, 2
  {
    if i == |s| then FieldsOutOfBounds
    else if s[i] == NONE then Fields(true, acc, i + 1)
    else
      match ParsePair(s, i)
      case PairOutOfBounds => FieldsOutOfBounds
      case BadPair(j) => Fields(false, acc, j)
      case Pair(f, j) => ParseFields(s, j, acc + [f])
  }

  function PairOf(key: seq<Byte>, val: Parse): PairParse {
    match val
    case OutOfBounds => PairOutOfBounds
    case Parsed(ok, v, k) => if ok then Pair(Field(key, v), k) else BadPair(k)
  }

  /** One turn of the pair loop. A key must have the typecode of a non-empty string. */
  function ParsePair(s: seq<Byte>, i: nat): (r: PairParse)
    requires i < |s|
    ensures r.BadPair? ==> i <= r.next <= |s|
    ensures r.Pair? ==> i < r.next <= |s|
    decreases |s| - i, 1
  {
    if s[i] != STRING then BadPair(i)
    else
      match ParseString(s, i + 1)
      case OutOfBounds => PairOutOfBounds
      case Parsed(keyOk, key, j) =>
        if !keyOk then BadPair(j)
        else
          PairOf(key.chars, ParseTagged(s, j))
  }

  // ---- What the parser makes of an encoded tree -----------------------------------

  /** The tree with every struct turned into the map that its entries, inserted in turn, make up. */
  function Normalise(v: Value): Value {
    match v
    case Array(es) => Array(NormaliseAll(es))
    case Struct(fs) => Struct(InsertAll([], NormaliseFields(fs)))
    case _ => v
  }

  function NormaliseAll(vs: seq<Value>): (r: seq<Value>) {
    if vs == [] then [] else [Normalise(vs[0])] + NormaliseAll(vs[1..])
  }

  function NormaliseFields(fs: seq<Field>): seq<Field> {
    if fs == [] then [] else [Field(fs[0].key, Normalise(fs[0].val))] + NormaliseFields(fs[1..])
  }

  lemma ReadLength(len: nat, s: seq<Byte>, i: nat)
    requires len < Pow256(8) && At(s, i, LengthField(len))
    ensures i < |s| && IsLengthCode(s[i])
    ensures var start := i + 1 + Width(KindOf(s[i]));
      start == i + |LengthField(len)| <= |s| && FromLE(s[i + 1..start]) == len
  {
    Pow256Values();
    var w := |LengthField(len)| - 1;
    AtConcat(s, i, [LengthField(len)[0]], LE(len, w));
    AtFirst(s, i, LengthField(len));
    AtSlice(s, i + 1, LE(len, w));
    LERoundTrip(len, w);
  }

  lemma StringLayout(c: seq<Byte>, s: seq<Byte>, i: nat)
    requires c != [] && At(s, i, EncodeString(c))
    ensures i < |s| && s[i] == STRING && At(s, i + 1, LengthField(|c|))
    ensures At(s, i + 1 + |LengthField(|c|)|, c)
    ensures |EncodeString(c)| == 1 + |LengthField(|c|)| + |c|
  {
    AtConcat3(s, i, [STRING], LengthField(|c|), c);
    AtFirst(s, i, [STRING]);
  }

  lemma ParseStringBody(c: seq<Byte>, s: seq<Byte>, i: nat)
    requires StringFits(c) && At(s, i, LengthField(|c|)) && At(s, i + |LengthField(|c|)|, c)
    ensures ParseString(s, i) == Parsed(true, Str(c), i + |LengthField(|c|)| + |c|)
  {
    Pow256Values();
    ReadLength(|c|, s, i);
  }

  lemma ParseEncodedString(c: seq<Byte>, s: seq<Byte>, i: nat)
    requires StringFits(c) && At(s, i, EncodeString(c))
    ensures ParseTagged(s, i) == Parsed(true, Str(c), i + |EncodeString(c)|)
  {
    if c == [] {
      AtFirst(s, i, [EMPTY_STRING]);
    } else {
      StringLayout(c, s, i);
      ParseStringBody(c, s, i + 1);
    }
  }

  lemma ParseEncodedNumber(k: Kind, n: nat, s: seq<Byte>, i: nat)
    requires n < Pow256(Width(k)) && At(s, i, [Code(k)] + LE(n, Width(k)))
    ensures ParseTagged(s, i) == Parsed(true, Num(k, n), i + 1 + Width(k))
  {
    AtConcat(s, i, [Code(k)], LE(n, Width(k)));
    AtFirst(s, i, [Code(k)]);
    AtSlice(s, i + 1, LE(n, Width(k)));
    LERoundTrip(n, Width(k));
  }

  lemma TaggedArray(n: nat, vs: seq<Value>, s: seq<Byte>, i: nat, j: nat)
    requires i + 9 <= j < |s| && s[i] == ARRAY && FromLE(s[i + 1..i + 9]) == n
    requires ParseElements(n, s, i + 9, []) == Elements(vs, j)
    ensures ParseTagged(s, i) == Parsed(true, Array(vs), j + 1)
  {
    assert ParseTagged(s, i) == ParseValue(s[i], s, i + 1) == ParseArray(s, i + 1);
  }

  lemma TaggedStruct(ps: seq<Field>, s: seq<Byte>, i: nat, j: nat)
    requires i < |s| && s[i] == STRUCT && PairsAt(s, i + 1, ps, j) && j < |s| && s[j] == NONE
    ensures ParseTagged(s, i) == Parsed(true, Struct(InsertAll([], ps)), j + 1)
  {
    LoopOverPairs(s, i + 1, ps, j, []);
    assert [] + ps == ps;
    assert ParseFields(s, j, ps) == Fields(true, ps, j + 1);
    FieldsToStruct(s, i, true, ps, j + 1);
  }

  lemma FieldsToStruct(s: seq<Byte>, i: nat, ok: bool, ps: seq<Field>, j: nat)
    requires i < |s| && s[i] == STRUCT && ParseFields(s, i + 1, []) == Fields(ok, ps, j)
    ensures ParseTagged(s, i) == Parsed(ok, if ok then Struct(InsertAll([], ps)) else Null, j)
  {
    assert ParseTagged(s, i) == ParseValue(s[i], s, i + 1) == ParseStruct(s, i + 1);
  }

  lemma ArrayStart(n: nat, s: seq<Byte>, i: nat)
    requires n < Pow256(8) && At(s, i, [ARRAY] + LE(n, 8))
    ensures i + 9 <= |s| && s[i] == ARRAY && FromLE(s[i + 1..i + 9]) == n
  {
    AtConcat(s, i, [ARRAY], LE(n, 8));
    AtFirst(s, i, [ARRAY]);
    ReadInteger(n, 8, s, i + 1);
  }

  lemma ArrayLayout(es: seq<Value>, x: Byte, s: seq<Byte>, i: nat)
    requires |es| < Pow256(8) && At(s, i, [ARRAY] + LE(|es|, 8) + EncodeAll(es) + [x])
    ensures i + 9 <= |s| && s[i] == ARRAY && FromLE(s[i + 1..i + 9]) == |es|
    ensures At(s, i + 9, EncodeAll(es)) && i + 9 + |EncodeAll(es)| < |s|
  {
    AtConcat3(s, i, [ARRAY] + LE(|es|, 8), EncodeAll(es), [x]);
    ArrayStart(|es|, s, i);
  }

  lemma StructLayout(fs: seq<Field>, s: seq<Byte>, i: nat)
    requires At(s, i, Encode(Struct(fs)))
    ensures i < |s| && s[i] == STRUCT && At(s, i + 1, EncodeFields(fs))
    ensures i + 1 + |EncodeFields(fs)| < |s| && s[i + 1 + |EncodeFields(fs)|] == NONE
    ensures |Encode(Struct(fs))| == 2 + |EncodeFields(fs)|
  {
    AtConcat3(s, i, [STRUCT], EncodeFields(fs), [NONE]);
    AtFirst(s, i, [STRUCT]);
    AtFirst(s, i + 1 + |EncodeFields(fs)|, [NONE]);
  }

  /** Wherever the encoding of a tree without empty keys stands, parsing it yields the
      normalised tree and the offset just past the encoding. */
  lemma {:induction false} ParseEncoded(v: Value, s: seq<Byte>, i: nat)
    requires InRange(v) && NoEmptyKeys(v) && At(s, i, Encode(v))
    ensures ParseTagged(s, i) == Parsed(true, Normalise(v), i + |Encode(v)|)
    decreases v, 1
  {
    match v
    case Bool(_) => AtFirst(s, i, Encode(v));
    case Num(k, n) => ParseEncodedNumber(k, n, s, i);
    case Str(c) => ParseEncodedString(c, s, i);
    case Array(es) => AnyTerminator(es, NONE, s, i);
    case Struct(fs) => ParseEncodedStruct(fs, s, i);
  }

  /** The octet behind the elements of an array is skipped, whichever it is. */
  lemma {:induction false} AnyTerminator(es: seq<Value>, x: Byte, s: seq<Byte>, i: nat)
    requires |es| < Pow256(8) && AllInRange(es) && NoEmptyKeysAll(es)
    requires At(s, i, [ARRAY] + LE(|es|, 8) + EncodeAll(es) + [x])
    ensures ParseTagged(s, i) == Parsed(true, Array(NormaliseAll(es)), i + 10 + |EncodeAll(es)|)
    decreases es, 1
  {
    ArrayLayout(es, x, s, i);
    var end := i + 9 + |EncodeAll(es)|;
    ParseEncodedElements(es, s, i + 9, end, []);
    assert [] + NormaliseAll(es) == NormaliseAll(es);
    TaggedArray(|es|, NormaliseAll(es), s, i, end);
  }

  lemma {:induction false} ParseEncodedStruct(fs: seq<Field>, s: seq<Byte>, i: nat)
    requires FieldsInRange(fs) && NoEmptyKeysFields(fs) && At(s, i, Encode(Struct(fs)))
    ensures ParseTagged(s, i) == Parsed(true, Struct(InsertAll([], NormaliseFields(fs))), i + |Encode(Struct(fs))|)
    decreases fs, 2
  {
    StructLayout(fs, s, i);
    var end := i + 1 + |EncodeFields(fs)|;
    ParseEncodedFields(fs, s, i + 1, end);
    TaggedStruct(NormaliseFields(fs), s, i, end);
  }

  lemma {:induction false} ParseEncodedElements(vs: seq<Value>, s: seq<Byte>, i: nat, end: nat, acc: seq<Value>)
    requires AllInRange(vs) && NoEmptyKeysAll(vs)
    requires At(s, i, EncodeAll(vs)) && end == i + |EncodeAll(vs)|
    ensures ParseElements(|vs|, s, i, acc) == Elements(acc + NormaliseAll(vs), end)
    decreases vs, 0
  {
    if vs == [] {
      assert acc + [] == acc;
    } else {
      AtConcat(s, i, Encode(vs[0]), EncodeAll(vs[1..]));
      ParseEncoded(vs[0], s, i);
      ParseEncodedElements(vs[1..], s, i + |Encode(vs[0])|, end, acc + [Normalise(vs[0])]);
      assert acc + [Normalise(vs[0])] + NormaliseAll(vs[1..]) == acc + NormaliseAll(vs);
    }
  }

  lemma KeyRead(key: seq<Byte>, s: seq<Byte>, j: nat, mid: nat)
    requires key != [] && StringFits(key) && At(s, j, EncodeString(key)) && mid == j + |EncodeString(key)|
    ensures j < |s| && s[j] == STRING && mid <= |s| && ParsePair(s, j) == PairOf(key, ParseTagged(s, mid))
  {
    StringLayout(key, s, j);
    ParseStringBody(key, s, j + 1);
  }

  /** An encoded field: its key, and at `mid` its value. */
  lemma ReadKey(f: Field, s: seq<Byte>, i: nat) returns (mid: nat)
    requires StringFits(f.key) && At(s, i, EncodeField(f))
    ensures i < |s| && s[i] != NONE && mid <= |s|
    ensures At(s, mid, Encode(f.val)) && mid + |Encode(f.val)| == i + |EncodeField(f)|
    ensures f.key == [] ==> ParsePair(s, i) == BadPair(i)
    ensures f.key != [] ==> ParsePair(s, i) == PairOf(f.key, ParseTagged(s, mid))
  {
    mid := i + |EncodeString(f.key)|;
    AtConcat(s, i, EncodeString(f.key), Encode(f.val));
    if f.key == [] {
      AtFirst(s, i, [EMPTY_STRING]);
    } else {
      KeyRead(f.key, s, i, mid);
    }
  }

  lemma SplitFields(fs: seq<Field>, s: seq<Byte>, i: nat)
    requires fs != [] && At(s, i, EncodeFields(fs))
    ensures At(s, i, EncodeField(fs[0])) && At(s, i + |EncodeField(fs[0])|, EncodeFields(fs[1..]))
    ensures |EncodeFields(fs)| == |EncodeField(fs[0])| + |EncodeFields(fs[1..])|
  {
    AtConcat(s, i, EncodeField(fs[0]), EncodeFields(fs[1..]));
  }

  /** The first of several encoded fields: its value stands at `mid`, the next field at `j`. */
  lemma ReadFirstKey(fs: seq<Field>, s: seq<Byte>, i: nat) returns (mid: nat, j: nat)
    requires fs != [] && StringFits(fs[0].key) && At(s, i, EncodeFields(fs))
    ensures i < |s| && s[i] != NONE && mid <= |s|
    ensures At(s, mid, Encode(fs[0].val)) && mid + |Encode(fs[0].val)| == j
    ensures At(s, j, EncodeFields(fs[1..])) && j + |EncodeFields(fs[1..])| == i + |EncodeFields(fs)|
    ensures fs[0].key == [] ==> ParsePair(s, i) == BadPair(i)
    ensures fs[0].key != [] ==> ParsePair(s, i) == PairOf(fs[0].key, ParseTagged(s, mid))
  {
    SplitFields(fs, s, i);
    mid := ReadKey(fs[0], s, i);
    j := i + |EncodeField(fs[0])|;
  }

  /** The pair loop, started at `i`, reads the pairs `ps` one after the other and comes to `j`. */
  ghost predicate PairsAt(s: seq<Byte>, i: nat, ps: seq<Field>, j: nat)
    decreases |ps|
  {
    if ps == [] then
      i == j <= |s|
    else
      && i < |s| && s[i] != NONE && ParsePair(s, i).Pair? && ParsePair(s, i).f == ps[0]
      && PairsAt(s, ParsePair(s, i).next, ps[1..], j)
  }

  lemma {:induction false} LoopOverPairs(s: seq<Byte>, i: nat, ps: seq<Field>, j: nat, acc: seq<Field>)
    requires PairsAt(s, i, ps, j)
    ensures i <= |s| && j <= |s| && ParseFields(s, i, acc) == ParseFields(s, j, acc + ps)
    decreases |ps|
  {
    if ps == [] {
      assert acc + ps == acc;
    } else {
      LoopOverPairs(s, ParsePair(s, i).next, ps[1..], j, acc + [ps[0]]);
      assert acc + [ps[0]] + ps[1..] == acc + ps;
    }
  }

  lemma {:induction false} ParseEncodedFields(fs: seq<Field>, s: seq<Byte>, i: nat, end: nat)
    requires FieldsInRange(fs) && NoEmptyKeysFields(fs)
    requires At(s, i, EncodeFields(fs)) && end == i + |EncodeFields(fs)|
    ensures PairsAt(s, i, NormaliseFields(fs), end)
    decreases fs, 1
  {
    if fs == [] {
    } else {
      var j := ParseEncodedField(fs, s, i);
      ParseEncodedFields(fs[1..], s, j, end);
      assert NormaliseFields(fs)[1..] == NormaliseFields(fs[1..]);
    }
  }

  /** The first of several encoded fields is read and leaves the index, `j`, at the next one. */
  lemma {:induction false} ParseEncodedField(fs: seq<Field>, s: seq<Byte>, i: nat) returns (j: nat)
    requires fs != [] && fs[0].key != [] && StringFits(fs[0].key) && At(s, i, EncodeFields(fs))
    requires InRange(fs[0].val) && NoEmptyKeys(fs[0].val)
    ensures i < |s| && s[i] != NONE
    ensures ParsePair(s, i) == Pair(Field(fs[0].key, Normalise(fs[0].val)), j)
    ensures j + |EncodeFields(fs[1..])| == i + |EncodeFields(fs)| && At(s, j, EncodeFields(fs[1..]))
    decreases fs, 0
  {
    var mid;
    mid, j := ReadFirstKey(fs, s, i);
    ParseEncoded(fs[0].val, s, mid);
  }

  // ---- When nothing is lost -------------------------------------------------------

  /** Every struct in the tree lists its keys as a map holding them would: ascending, each once. */
  ghost predicate KeysInOrder(v: Value) {
    match v
    case Array(es) => KeysInOrderAll(es)
    case Struct(fs) => Ascending(fs) && KeysInOrderFields(fs)
    case _ => true
  }

  ghost predicate KeysInOrderAll(vs: seq<Value>) {
    vs == [] || (KeysInOrder(vs[0]) && KeysInOrderAll(vs[1..]))
  }

  ghost predicate KeysInOrderFields(fs: seq<Field>) {
    fs == [] || (KeysInOrder(fs[0].val) && KeysInOrderFields(fs[1..]))
  }

  lemma {:induction false} InsertKeeps(m: seq<Field>, f: Field)
    ensures forall g :: g in m ==> g in Insert(m, f)
    ensures forall g :: g in Insert(m, f) ==> g in m || g == f
  {
    if m == [] {
    } else if m[0].key != f.key && !Less(f.key, m[0].key) {
      InsertKeeps(m[1..], f);
    }
  }

  lemma {:induction false} InsertAscending(m: seq<Field>, f: Field)
    requires Ascending(m)
    ensures Ascending(Insert(m, f))
  {
    if m == [] {
    } else if m[0].key != f.key {
      if Less(f.key, m[0].key) {
        forall j | 0 <= j < |m| ensures Less(f.key, m[j].key) {
          if j > 0 { LessTransitive(f.key, m[0].key, m[j].key); }
        }
      } else {
        LessTotal(m[0].key, f.key);
        InsertAscending(m[1..], f);
        var r := Insert(m[1..], f);
        forall j | 0 <= j < |r| ensures Less(m[0].key, r[j].key) {
          InsertKeeps(m[1..], f);
          assert r[j] in r;
        }
      }
    }
  }

  /** The key stands in the map. */
  ghost predicate HasKey(m: seq<Field>, key: seq<Byte>) { exists g :: g in m && g.key == key }

  /** An insertion adds the entry if its key is new, and changes nothing else. */
  lemma {:induction false} InsertIs(m: seq<Field>, f: Field)
    requires Ascending(m)
    ensures forall g :: g in Insert(m, f) <==> g in m || (g == f && !HasKey(m, f.key))
  {
    if m == [] {
    } else {
      assert m == [m[0]] + m[1..];
      if m[0].key == f.key {
        assert m[0] in m;
      } else if Less(f.key, m[0].key) {
        NotBelow(m, f.key);
      } else {
        InsertIs(m[1..], f);
        assert forall g :: g in m <==> g == m[0] || g in m[1..];
      }
    }
  }

  lemma NotBelow(m: seq<Field>, key: seq<Byte>)
    requires Ascending(m) && m != [] && Less(key, m[0].key)
    ensures !HasKey(m, key)
  {
    forall i | 0 <= i < |m| ensures m[i].key != key {
      LessIrreflexive(key);
      if i > 0 { LessTransitive(key, m[0].key, m[i].key); }
    }
  }

  /** `f` is the first of these pairs with its key. */
  ghost predicate FirstOf(fs: seq<Field>, f: Field) {
    exists i :: 0 <= i < |fs| && fs[i] == f && forall j :: 0 <= j < i ==> fs[j].key != f.key
  }

  /** The map that pairs inserted in turn make up holds, for every key, the first pair that has it. */
  lemma {:induction false} FirstWins(fs: seq<Field>)
    ensures Ascending(InsertAll([], fs)) && forall f :: f in InsertAll([], fs) <==> FirstOf(fs, f)
    decreases |fs|
  {
    if fs == [] {
    } else {
      var init, last := fs[..|fs| - 1], fs[|fs| - 1];
      var m := InsertAll([], init);
      assert fs == init + [last];
      InsertAllAppend([], init, [last]);
      assert InsertAll(m, [last]) == Insert(m, last);
      FirstWins(init);
      InsertAscending(m, last);
      InsertIs(m, last);
      forall f ensures f in Insert(m, last) <==> FirstOf(fs, f) { FirstOfMore(init, last, m, f); }
    }
  }

  lemma FirstOfMore(init: seq<Field>, last: Field, m: seq<Field>, f: Field)
    requires forall g :: g in m <==> FirstOf(init, g)
    ensures FirstOf(init + [last], f) <==> f in m || (f == last && !HasKey(m, last.key))
  {
    var fs := init + [last];
    assert forall i :: 0 <= i < |init| ==> fs[i] == init[i];
    if FirstOf(init, f) {
      var i :| 0 <= i < |init| && init[i] == f && forall j :: 0 <= j < i ==> init[j].key != f.key;
      assert fs[i] == f;
    }
    if FirstOf(fs, f) && !FirstOf(init, f) {
      var i :| 0 <= i < |fs| && fs[i] == f && forall j :: 0 <= j < i ==> fs[j].key != f.key;
      assert i == |init|;
    }
    if f == last && !HasKey(m, last.key) {
      forall j | 0 <= j < |init| ensures fs[j].key != f.key { FirstWithKey(init, j); }
      assert fs[|init|] == f;
    }
  }

  /** A key that occurs among some pairs has a first pair. */
  lemma {:induction false} FirstWithKey(fs: seq<Field>, i: nat)
    requires i < |fs|
    ensures exists g :: FirstOf(fs, g) && g.key == fs[i].key
    decreases i
  {
    if j :| 0 <= j < i && fs[j].key == fs[i].key {
      FirstWithKey(fs, j);
    } else {
      assert FirstOf(fs, fs[i]);
    }
  }

  /** Inserting behind all present keys appends. */
  lemma {:induction false} InsertLast(m: seq<Field>, f: Field)
    requires forall i :: 0 <= i < |m| ==> Less(m[i].key, f.key)
    ensures Insert(m, f) == m + [f]
  {
    if m == [] {
    } else {
      LessIrreflexive(f.key);
      if Less(f.key, m[0].key) { LessTransitive(f.key, m[0].key, f.key); }
      InsertLast(m[1..], f);
    }
  }

  lemma {:induction false} InsertAllKeeps(m: seq<Field>, fs: seq<Field>)
    ensures forall g :: g in m ==> g in InsertAll(m, fs)
    ensures forall g :: g in InsertAll(m, fs) ==> g in m || g in fs
    decreases |fs|
  {
    if fs == [] {
    } else {
      InsertKeeps(m, fs[0]);
      InsertAllKeeps(Insert(m, fs[0]), fs[1..]);
    }
  }

  lemma {:induction false} InsertAllAppend(m: seq<Field>, fs: seq<Field>, gs: seq<Field>)
    ensures InsertAll(m, fs + gs) == InsertAll(InsertAll(m, fs), gs)
    decreases |fs|
  {
    if fs == [] {
      assert fs + gs == gs;
    } else {
      assert (fs + gs)[1..] == fs[1..] + gs;
      InsertAllAppend(Insert(m, fs[0]), fs[1..], gs);
    }
  }

  lemma {:induction false} InsertAllAscending(m: seq<Field>, fs: seq<Field>)
    requires Ascending(m)
    ensures Ascending(InsertAll(m, fs))
    decreases |fs|
  {
    if fs == [] {
    } else {
      InsertAscending(m, fs[0]);
      InsertAllAscending(Insert(m, fs[0]), fs[1..]);
    }
  }

  lemma {:induction false} InsertAllInOrder(m: seq<Field>, fs: seq<Field>)
    requires Ascending(m + fs)
    ensures InsertAll(m, fs) == m + fs
    decreases |fs|
  {
    if fs == [] {
      assert m + fs == m;
    } else {
      forall i | 0 <= i < |m| ensures Less(m[i].key, fs[0].key) {
        assert (m + fs)[i] == m[i] && (m + fs)[|m|] == fs[0];
      }
      InsertLast(m, fs[0]);
      assert m + [fs[0]] + fs[1..] == m + fs;
      InsertAllInOrder(m + [fs[0]], fs[1..]);
    }
  }

  /** Normalising keeps a tree exactly when its keys are in order. */
  lemma {:induction false} NormaliseInOrder(v: Value)
    requires KeysInOrder(v)
    ensures Normalise(v) == v
    decreases v, 1
  {
    match v
    case Array(es) => NormaliseAllInOrder(es);
    case Struct(fs) =>
      NormaliseFieldsInOrder(fs);
      assert [] + fs == fs;
      InsertAllInOrder([], fs);
    case _ =>
  }

  lemma {:induction false} NormaliseAllInOrder(vs: seq<Value>)
    requires KeysInOrderAll(vs)
    ensures NormaliseAll(vs) == vs
    decreases vs, 0
  {
    if vs == [] {
    } else {
      NormaliseInOrder(vs[0]);
      NormaliseAllInOrder(vs[1..]);
    }
  }

  lemma {:induction false} NormaliseFieldsInOrder(fs: seq<Field>)
    requires KeysInOrderFields(fs)
    ensures NormaliseFields(fs) == fs
    decreases fs, 0
  {
    if fs == [] {
    } else {
      NormaliseInOrder(fs[0].val);
      NormaliseFieldsInOrder(fs[1..]);
    }
  }

  // ---- Parsed trees are in order, whatever the octets -----------------------------

  ghost predicate EachInOrder(ps: seq<Field>) { forall f :: f in ps ==> KeysInOrder(f.val) }

  lemma {:induction false} KeysInOrderFieldsAll(fs: seq<Field>)
    requires forall f :: f in fs ==> KeysInOrder(f.val)
    ensures KeysInOrderFields(fs)
  {
    if fs == [] {
    } else {
      KeysInOrderFieldsAll(fs[1..]);
    }
  }

  lemma {:induction false} KeysInOrderAppend(vs: seq<Value>, v: Value)
    requires KeysInOrderAll(vs) && KeysInOrder(v)
    ensures KeysInOrderAll(vs + [v])
  {
    if vs == [] {
    } else {
      assert (vs + [v])[1..] == vs[1..] + [v];
      KeysInOrderAppend(vs[1..], v);
    }
  }

  /** Every struct that the parser builds, at any depth and from any octets, has ascending distinct keys. */
  lemma {:induction false} ParsedInOrder(s: seq<Byte>, i: nat)
    requires i <= |s| && ParseTagged(s, i).Parsed?
    ensures KeysInOrder(ParseTagged(s, i).v)
    decreases |s| - i, 0
  {
    assert ParseTagged(s, i) == ParseValue(s[i], s, i + 1);
    if s[i] == ARRAY {
      assert ParseValue(s[i], s, i + 1) == ParseArray(s, i + 1);
      ParsedElementsInOrder(FromLE(s[i + 1..i + 9]), s, i + 9, []);
    } else if s[i] == STRUCT {
      assert ParseValue(s[i], s, i + 1) == ParseStruct(s, i + 1);
      ParsedFieldsInOrder(s, i + 1, []);
      var r := ParseFields(s, i + 1, []);
      InsertAllKeeps([], r.pairs);
      InsertAllAscending([], r.pairs);
      KeysInOrderFieldsAll(InsertAll([], r.pairs));
    }
  }

  lemma {:induction false} ParsedElementsInOrder(n: nat, s: seq<Byte>, i: nat, acc: seq<Value>)
    requires i <= |s| && ParseElements(n, s, i, acc).Elements? && KeysInOrderAll(acc)
    ensures KeysInOrderAll(ParseElements(n, s, i, acc).vs)
    decreases |s| - i, 1
  {
    if n == 0 {
    } else {
      ParsedInOrder(s, i);
      var r := ParseTagged(s, i);
      KeysInOrderAppend(acc, r.v);
      ParsedElementsInOrder(n - 1, s, r.next, acc + [r.v]);
    }
  }

  lemma {:induction false} ParsedFieldsInOrder(s: seq<Byte>, i: nat, acc: seq<Field>)
    requires i <= |s| && ParseFields(s, i, acc).Fields? && EachInOrder(acc)
    ensures EachInOrder(ParseFields(s, i, acc).pairs)
    decreases |s| - i, 2
  {
    if s[i] == NONE {
    } else if ParsePair(s, i).Pair? {
      var p := ParsePair(s, i);
      ParsedPairInOrder(s, i);
      ParsedFieldsInOrder(s, p.next, acc + [p.f]);
    }
  }

  lemma {:induction false} ParsedPairInOrder(s: seq<Byte>, i: nat)
    requires i < |s| && ParsePair(s, i).Pair?
    ensures KeysInOrder(ParsePair(s, i).f.val)
    decreases |s| - i, 1
  {
    ParsedInOrder(s, ParseString(s, i + 1).next);
  }

  // ---- An empty key anywhere is never read back -----------------------------------

  lemma {:induction false} ElementsExtend(n: nat, s: seq<Byte>, i: nat, acc: seq<Value>)
    requires i <= |s| && ParseElements(n, s, i, acc).Elements?
    ensures acc <= ParseElements(n, s, i, acc).vs
    decreases |s| - i
  {
    if n == 0 {
    } else {
      var r := ParseTagged(s, i);
      ElementsExtend(n - 1, s, r.next, acc + [r.v]);
    }
  }

  lemma {:induction false} FieldsExtend(s: seq<Byte>, i: nat, acc: seq<Field>)
    requires i <= |s| && ParseFields(s, i, acc).Fields?
    ensures acc <= ParseFields(s, i, acc).pairs
    decreases |s| - i
  {
    if s[i] == NONE {
    } else if ParsePair(s, i).Pair? {
      var p := ParsePair(s, i);
      FieldsExtend(s, p.next, acc + [p.f]);
    }
  }

  /** A tree with an empty struct key somewhere is never what parsing its encoding yields. */
  lemma {:induction false} EmptyKeyLost(v: Value, s: seq<Byte>, i: nat)
    requires InRange(v) && KeysInOrder(v) && !NoEmptyKeys(v) && At(s, i, Encode(v))
    ensures ParseTagged(s, i).Parsed? ==> ParseTagged(s, i).v != v
    decreases v, 1
  {
    match v
    case Array(es) =>
      ArrayLayout(es, NONE, s, i);
      EmptyKeyLostElements(es, s, i + 9, []);
      assert [] + es == es;
      TaggedArrayLost(es, s, i);
    case Struct(fs) =>
      StructLayout(fs, s, i);
      var good, rest, j := EmptyKeyLostFields(fs, s, i + 1);
      LoopLost(good, rest, s, i + 1, j);
      TaggedStructLost(fs, s, i);
  }

  lemma TaggedArrayLost(es: seq<Value>, s: seq<Byte>, i: nat)
    requires i + 9 <= |s| && s[i] == ARRAY && FromLE(s[i + 1..i + 9]) == |es|
    requires var r := ParseElements(|es|, s, i + 9, []); r.Elements? ==> r.vs != es
    ensures ParseTagged(s, i).Parsed? ==> ParseTagged(s, i).v != Array(es)
  {
    assert ParseTagged(s, i) == ParseValue(s[i], s, i + 1) == ParseArray(s, i + 1);
  }

  lemma LoopLost(good: seq<Field>, rest: seq<Field>, s: seq<Byte>, i: nat, j: nat)
    requires rest != [] && Ascending(good + rest) && PairsAt(s, i, good, j) && j < |s| && s[j] != NONE
    requires var p := ParsePair(s, j); p.Pair? ==> p.f.key == rest[0].key && p.f.val != rest[0].val
    ensures i <= |s|
    ensures var r := ParseFields(s, i, []); r.Fields? && r.ok ==> InsertAll([], r.pairs) != good + rest
  {
    assert [] + good == good;
    LoopOverPairs(s, i, good, j, []);
    WrongFieldStays(good, rest, s, j);
  }

  lemma TaggedStructLost(fs: seq<Field>, s: seq<Byte>, i: nat)
    requires i < |s| && s[i] == STRUCT
    requires var r := ParseFields(s, i + 1, []); r.Fields? && r.ok ==> InsertAll([], r.pairs) != fs
    ensures ParseTagged(s, i).Parsed? ==> ParseTagged(s, i).v != Struct(fs)
  {
    assert ParseTagged(s, i) == ParseValue(s[i], s, i + 1) == ParseStruct(s, i + 1);
  }

  lemma OneElement(vs: seq<Value>, s: seq<Byte>, i: nat, acc: seq<Value>, j: nat)
    requires vs != [] && i <= |s| && ParseTagged(s, i) == Parsed(true, vs[0], j)
    ensures j <= |s| && ParseElements(|vs|, s, i, acc) == ParseElements(|vs[1..]|, s, j, acc + [vs[0]])
    ensures acc + [vs[0]] + vs[1..] == acc + vs
  {
  }

  lemma {:induction false} EmptyKeyLostElements(vs: seq<Value>, s: seq<Byte>, i: nat, acc: seq<Value>)
    requires AllInRange(vs) && KeysInOrderAll(vs) && !NoEmptyKeysAll(vs) && At(s, i, EncodeAll(vs))
    ensures var r := ParseElements(|vs|, s, i, acc); r.Elements? ==> r.vs != acc + vs
    decreases vs, 0
  {
    AtConcat(s, i, Encode(vs[0]), EncodeAll(vs[1..]));
    if NoEmptyKeys(vs[0]) {
      var j := i + |Encode(vs[0])|;
      ParseEncoded(vs[0], s, i);
      NormaliseInOrder(vs[0]);
      OneElement(vs, s, i, acc, j);
      EmptyKeyLostElements(vs[1..], s, j, acc + [vs[0]]);
    } else {
      EmptyKeyLost(vs[0], s, i);
      WrongElementStays(vs, s, i, acc);
    }
  }

  lemma WrongElementStays(vs: seq<Value>, s: seq<Byte>, i: nat, acc: seq<Value>)
    requires i <= |s| && vs != [] && (ParseTagged(s, i).Parsed? ==> ParseTagged(s, i).v != vs[0])
    ensures var r := ParseElements(|vs|, s, i, acc); r.Elements? ==> r.vs != acc + vs
  {
    var t := ParseTagged(s, i);
    if t.Parsed? && ParseElements(|vs| - 1, s, t.next, acc + [t.v]).Elements? {
      ElementsExtend(|vs| - 1, s, t.next, acc + [t.v]);
      assert (acc + vs)[|acc|] == vs[0];
      assert (acc + [t.v])[|acc|] == t.v;
    }
  }

  lemma PairsAtFirst(s: seq<Byte>, i: nat, f: Field, i': nat, ps: seq<Field>, j: nat)
    requires i < |s| && s[i] != NONE && ParsePair(s, i) == Pair(f, i') && PairsAt(s, i', ps, j)
    ensures PairsAt(s, i, [f] + ps, j)
  {
    assert ([f] + ps)[1..] == ps;
  }

  lemma PrependSame(fs: seq<Field>, good: seq<Field>, rest: seq<Field>)
    requires fs != [] && good + rest == fs[1..]
    ensures [fs[0]] + good + rest == fs
  {
    assert [fs[0]] + good + rest == [fs[0]] + (good + rest);
  }

  /** The first field of `rest` is the first that is not read back; the loop comes to it at offset `j`. */
  lemma {:induction false} EmptyKeyLostFields(fs: seq<Field>, s: seq<Byte>, i: nat)
    returns (good: seq<Field>, rest: seq<Field>, j: nat)
    requires FieldsInRange(fs) && KeysInOrderFields(fs) && !NoEmptyKeysFields(fs) && At(s, i, EncodeFields(fs))
    ensures good + rest == fs && rest != [] && PairsAt(s, i, good, j) && j < |s| && s[j] != NONE
    ensures var p := ParsePair(s, j); p.Pair? ==> p.f.key == rest[0].key && p.f.val != rest[0].val
    decreases fs, 1
  {
    if fs[0].key != [] && NoEmptyKeys(fs[0].val) {
      var i' := ParseEncodedField(fs, s, i);
      NormaliseInOrder(fs[0].val);
      good, rest, j := EmptyKeyLostFields(fs[1..], s, i');
      PairsAtFirst(s, i, fs[0], i', good, j);
      PrependSame(fs, good, rest);
      good := [fs[0]] + good;
    } else {
      EmptyKeyLostField(fs, s, i);
      good, rest, j := [], fs, i;
    }
  }

  lemma {:induction false} EmptyKeyLostField(fs: seq<Field>, s: seq<Byte>, i: nat)
    requires fs != [] && At(s, i, EncodeFields(fs))
    requires StringFits(fs[0].key) && InRange(fs[0].val) && KeysInOrder(fs[0].val)
    requires fs[0].key == [] || !NoEmptyKeys(fs[0].val)
    ensures i < |s| && s[i] != NONE
    ensures var p := ParsePair(s, i); p.Pair? ==> p.f.key == fs[0].key && p.f.val != fs[0].val
    decreases fs, 0
  {
    var mid, _ := ReadFirstKey(fs, s, i);
    if fs[0].key == [] {
    } else {
      EmptyKeyLost(fs[0].val, s, mid);
    }
  }

  lemma SplitPrefix(ps: seq<Field>, qs: seq<Field>) returns (rest: seq<Field>)
    requires ps <= qs
    ensures qs == ps + rest
  {
    rest := qs[|ps|..];
  }

  lemma WrongFieldStays(acc: seq<Field>, fs: seq<Field>, s: seq<Byte>, i: nat)
    requires fs != [] && Ascending(acc + fs) && i < |s| && s[i] != NONE
    requires var p := ParsePair(s, i); p.Pair? ==> p.f.key == fs[0].key && p.f.val != fs[0].val
    ensures var r := ParseFields(s, i, acc); r.Fields? && r.ok ==> InsertAll([], r.pairs) != acc + fs
  {
    var p, r := ParsePair(s, i), ParseFields(s, i, acc);
    if p.Pair? && r.Fields? {
      FieldsExtend(s, p.next, acc + [p.f]);
      var rest := SplitPrefix(acc + [p.f], r.pairs);
      WrongFieldKept(acc, p.f, fs, rest);
    }
  }

  lemma WrongFieldKept(acc: seq<Field>, f: Field, fs: seq<Field>, rest: seq<Field>)
    requires fs != [] && Ascending(acc + fs) && f.key == fs[0].key && f.val != fs[0].val
    ensures InsertAll([], acc + [f] + rest) != acc + fs
  {
    forall k, l | 0 <= k < l < |acc + [f]| ensures Less((acc + [f])[k].key, (acc + [f])[l].key) {
      assert (acc + fs)[k] == acc[k] && (acc + fs)[l].key == (acc + [f])[l].key;
    }
    assert [] + (acc + [f]) == acc + [f];
    InsertAllInOrder([], acc + [f]);
    InsertAllAppend([], acc + [f], rest);
    InsertAllKeeps(acc + [f], rest);
    assert f in acc + [f];
    if InsertAll([], acc + [f] + rest) == acc + fs {
      var j :| 0 <= j < |acc + fs| && (acc + fs)[j] == f;
      assert (acc + fs)[|acc|] == fs[0];
      LessIrreflexive(f.key);
      assert false;
    }
  }

  /**
   * The round trip and its exact condition: what parseValue rebuilds is the tree that was
   * serialised, with the index just past it, if and only if no struct key is empty and every
   * struct lists its keys in map order.
   */
  lemma RoundTrip(v: Value, s: seq<Byte>, i: nat)
    requires InRange(v) && At(s, i, Encode(v))
    ensures ParseTagged(s, i) == Parsed(true, v, i + |Encode(v)|) <==> NoEmptyKeys(v) && KeysInOrder(v)
  {
    if NoEmptyKeys(v) && KeysInOrder(v) {
      ParseEncoded(v, s, i);
      NormaliseInOrder(v);
    } else if KeysInOrder(v) {
      EmptyKeyLost(v, s, i);
    } else if ParseTagged(s, i).Parsed? {
      ParsedInOrder(s, i);
    }
  }

  /** A struct whose one key is empty: the parser gives up at the key, and leaves nothing in the object. */
  lemma EmptyKeyStruct(x: Value, s: seq<Byte>, i: nat)
    requires InRange(x) && At(s, i, Encode(Struct([Field([], x)])))
    ensures InRange(Struct([Field([], x)])) && i < |s| && ParseTagged(s, i) == Parsed(false, Null, i + 1)
  {
    var fs := [Field([], x)];
    assert FieldsInRange(fs[1..]);
    StructLayout(fs, s, i);
    var mid, j := ReadFirstKey(fs, s, i + 1);
    assert ParseFields(s, i + 1, []) == Fields(false, [], i + 1);
    FieldsToStruct(s, i, false, [], i + 1);
  }

  // ---- Octets that no sender writes -----------------------------------------------

  /** An octet that is no typecode is taken for a value: nothing else is read, and the object stays null. */
  lemma UnknownTypecode(s: seq<Byte>, i: nat)
    requires i < |s| && !(0x02 <= s[i] <= 0x11)
    ensures ParseTagged(s, i) == Parsed(true, Null, i + 1)
  {
  }

  /** A text whose length has no unsigned type is given up behind the two codes. */
  lemma BadLengthType(s: seq<Byte>, i: nat)
    requires i + 1 < |s| && s[i] == STRING && s[i + 1] !in [0x04, 0x06, 0x08, 0x0a]
    ensures ParseTagged(s, i) == Parsed(false, Null, i + 2)
  {
  }

  lemma StructStart(fs: seq<Field>, s: seq<Byte>, i: nat, j: nat)
    requires FieldsInRange(fs) && NoEmptyKeysFields(fs) && At(s, i, [STRUCT] + EncodeFields(fs))
    requires j == i + 1 + |EncodeFields(fs)|
    ensures i < |s| && s[i] == STRUCT && j <= |s| && ParseFields(s, i + 1, []) == ParseFields(s, j, NormaliseFields(fs))
  {
    AtConcat(s, i, [STRUCT], EncodeFields(fs));
    AtFirst(s, i, [STRUCT]);
    ParseEncodedFields(fs, s, i + 1, j);
    LoopOverPairs(s, i + 1, NormaliseFields(fs), j, []);
    assert [] + NormaliseFields(fs) == NormaliseFields(fs);
  }

  lemma PairGivenUp(s: seq<Byte>, j: nat, acc: seq<Field>, n: nat)
    requires j < |s| && s[j] != NONE && ParsePair(s, j) == BadPair(n)
    ensures ParseFields(s, j, acc) == Fields(false, acc, n)
  {
  }

  /** A struct is given up at the first octet that stands where a key or the terminator should, whatever
      entries come before it. */
  lemma BadKeyType(fs: seq<Field>, s: seq<Byte>, i: nat, j: nat)
    requires FieldsInRange(fs) && NoEmptyKeysFields(fs) && At(s, i, [STRUCT] + EncodeFields(fs))
    requires j == i + 1 + |EncodeFields(fs)| < |s| && s[j] != STRING && s[j] != NONE
    ensures i < |s| && ParseTagged(s, i) == Parsed(false, Null, j)
  {
    StructStart(fs, s, i, j);
    PairGivenUp(s, j, NormaliseFields(fs), j);
    FieldsToStruct(s, i, false, NormaliseFields(fs), j);
  }

  lemma ValueGivenUp(key: seq<Byte>, s: seq<Byte>, j: nat, mid: nat, acc: seq<Field>)
    requires key != [] && StringFits(key) && At(s, j, EncodeString(key)) && mid == j + |EncodeString(key)| <= |s|
    requires ParseTagged(s, mid).Parsed? && !ParseTagged(s, mid).ok
    ensures j < |s| && ParseFields(s, j, acc) == Fields(false, acc, ParseTagged(s, mid).next)
  {
    KeyRead(key, s, j, mid);
    PairGivenUp(s, j, acc, ParseTagged(s, mid).next);
  }

  /** So it is where the value of an entry is given up. */
  lemma BadValue(fs: seq<Field>, key: seq<Byte>, s: seq<Byte>, i: nat, mid: nat)
    requires FieldsInRange(fs) && NoEmptyKeysFields(fs) && key != [] && StringFits(key)
    requires At(s, i, [STRUCT] + EncodeFields(fs) + EncodeString(key))
    requires mid == i + 1 + |EncodeFields(fs)| + |EncodeString(key)| <= |s|
    requires ParseTagged(s, mid).Parsed? && !ParseTagged(s, mid).ok
    ensures i < |s| && ParseTagged(s, i) == Parsed(false, Null, ParseTagged(s, mid).next)
  {
    var j := i + 1 + |EncodeFields(fs)|;
    AtConcat(s, i, [STRUCT] + EncodeFields(fs), EncodeString(key));
    StructStart(fs, s, i, j);
    ValueGivenUp(key, s, j, mid, NormaliseFields(fs));
    FieldsToStruct(s, i, false, NormaliseFields(fs), ParseTagged(s, mid).next);
  }

  /** From `i` on stand octets that are read as these values, one after the other, given up or not. */
  ghost predicate ReadAs(s: seq<Byte>, i: nat, vs: seq<Value>, j: nat)
    decreases |vs|
  {
    if vs == [] then i == j <= |s|
    else
      && i <= |s| && ParseTagged(s, i).Parsed? && ParseTagged(s, i).v == vs[0]
      && ReadAs(s, ParseTagged(s, i).next, vs[1..], j)
  }

  lemma {:induction false} ElementsReadAs(vs: seq<Value>, s: seq<Byte>, i: nat, j: nat, acc: seq<Value>)
    requires ReadAs(s, i, vs, j)
    ensures i <= |s| && ParseElements(|vs|, s, i, acc) == Elements(acc + vs, j)
    decreases |vs|
  {
    if vs == [] {
      assert acc + vs == acc;
    } else {
      ElementsReadAs(vs[1..], s, ParseTagged(s, i).next, j, acc + [vs[0]]);
      assert acc + [vs[0]] + vs[1..] == acc + vs;
    }
  }

  /** An array goes on behind an element that is given up: it is read whole, with what its elements are
      read as. */
  lemma BadElementsKept(vs: seq<Value>, s: seq<Byte>, i: nat, j: nat)
    requires |vs| < Pow256(8) && At(s, i, [ARRAY] + LE(|vs|, 8)) && ReadAs(s, i + 9, vs, j) && j < |s|
    ensures i < |s| && ParseTagged(s, i) == Parsed(true, Array(vs), j + 1)
  {
    ArrayStart(|vs|, s, i);
    ElementsReadAs(vs, s, i + 9, j, []);
    assert [] + vs == vs;
    TaggedArray(|vs|, vs, s, i, j);
  }
}
