/** The NymphType objects: trees on the heap, written through an advancing index and read back. */
module NymphTypes {
  import opened Bytes
  import opened Values
  import opened Parser
  import opened Lengths

  // ---- Writing into a buffer ------------------------------------------------------

  /** `after` is `before` with `e` written at offset `i`. */
  ghost predicate Wrote(before: seq<Byte>, after: seq<Byte>, i: nat, e: seq<Byte>) {
    i + |e| <= |before| && after == before[..i] + e + before[i + |e|..]
  }

  lemma WroteThen(a: seq<Byte>, b: seq<Byte>, c: seq<Byte>, i: nat, d: seq<Byte>, e: seq<Byte>)
    requires Wrote(a, b, i, d) && Wrote(b, c, i + |d|, e)
    ensures Wrote(a, c, i, d + e)
  {
    assert b[..i + |d|] == a[..i] + d;
    assert b[i + |d| + |e|..] == a[i + |d| + |e|..];
    assert a[..i] + d + e == a[..i] + (d + e);
  }

  lemma WroteBehind(a: seq<Byte>, b: seq<Byte>, c: seq<Byte>, i: nat, head: seq<Byte>, d: seq<Byte>, e: seq<Byte>)
    requires Wrote(a, b, i, head + d) && Wrote(b, c, i + |head| + |d|, e)
    ensures Wrote(a, c, i, head + (d + e))
  {
    WroteThen(a, b, c, i, head + d, e);
    assert head + d + e == head + (d + e);
  }

  lemma WroteNothing(a: seq<Byte>, i: nat)
    requires i <= |a|
    ensures Wrote(a, a, i, [])
  {
    assert a == a[..i] + [] + a[i..];
  }

  /** memcpy, and the advance of the write pointer after it. */
  method Put(buf: array<Byte>, index: nat, e: seq<Byte>) returns (next: nat)
    requires index + |e| <= buf.Length
    modifies buf
    ensures next == index + |e| && Wrote(old(buf[..]), buf[..], index, e)
  {
    forall k | 0 <= k < |e| {
      buf[index + k] := e[k];
    }
    next := index + |e|;
  }

  /** Continuing to write after `done` has been written from `start` on. */
  method PutNext(buf: array<Byte>, ghost before: seq<Byte>, ghost start: nat, ghost done: seq<Byte>,
                 index: nat, e: seq<Byte>) returns (next: nat)
    requires Wrote(before, buf[..], start, done) && index == start + |done| && index + |e| <= buf.Length
    modifies buf
    ensures next == start + |done + e| && Wrote(before, buf[..], start, done + e)
  {
    ghost var mid := buf[..];
    next := Put(buf, index, e);
    WroteThen(before, mid, buf[..], start, done, e);
  }

  // ---- Objects --------------------------------------------------------------------

  /** An entry of std::map<std::string, NymphPair>: the map's key, and the pair under it. */
  datatype Entry = Entry(name: seq<Byte>, key: NymphType, value: NymphType)

  /** The type of a NymphType and the member of its union that this type selects. */
  datatype Data =
    | NoData
    | Boolean(b: bool)
    | Number(kind: Kind, bits: nat)
    | Chars(chars: seq<Byte>)
    | Vector(vector: seq<NymphType>)
    | Pairs(pairs: seq<Entry>)

  class NymphType {
    var data: Data
    var length: nat        // length of the serialised value
    var emptyString: bool

    constructor ()
      ensures data == NoData && length == 0 && !emptyString
    {
      data, length, emptyString := NoData, 0, false;
    }

    /** The number of the type in the enumeration NymphTypes. */
    function ValueType(): TypeCode
      reads this
    {
      match data
      case NoData => TYPE_NULL
      case Boolean(_) => TypeOf(Bool(false))
      case Number(k, _) => TypeOf(Num(k, 0))
      case Chars(_) => TYPE_STRING
      case Vector(_) => TypeOf(Array([]))
      case Pairs(_) => TypeOf(Struct([]))
    }

    // setValue, once for each type; the value constructors do the same to a new object. The flag for
    // an empty string is never taken back, which matters only when the object is set to a text again.

    method SetBool(b: bool)
      modifies this
      ensures Is(this, Bool(b), {this}) && length == Size(Bool(b))
    {
      data, length := Boolean(b), 1;
    }

    method SetNumber(k: Kind, bits: nat)
      modifies this
      ensures Is(this, Num(k, bits), {this}) && length == Size(Num(k, bits))
    {
      data, length := Number(k, bits), 1 + Width(k);
    }

    /** An object that has held an empty string stands for the new text only if that is empty as well. */
    method SetString(c: seq<Byte>)
      modifies this
      ensures data == Chars(c) && emptyString == (old(emptyString) || c == []) && length == Size(Str(c))
      ensures Is(this, Str(c), {this}) <==> (old(emptyString) ==> c == [])
    {
      data, length := Chars(c), BinaryStringLength(|c|);
      if |c| == 0 { emptyString := true; }
    }

    /** The length is what the elements announce, the typecode, the count and the terminator. */
    method SetArray(v: seq<NymphType>, ghost ms: seq<Value>, ghost below: set<NymphType>)
      requires AllAre(v, ms, below) && this !in below
      requires forall k :: 0 <= k < |v| ==> v[k].length == Size(ms[k])
      modifies this
      ensures Is(this, Array(ms), below + {this}) && length == Size(Array(ms))
    {
      var total := SumLengths(v, ms);
      data, length := Vector(v), total + 10;
      AllAreGrow(v, ms, below, below + {this});
    }

    method SetStruct(ps: seq<Entry>, ghost fs: seq<Field>, ghost below: set<NymphType>)
      requires AllPairsAre(ps, fs, below) && this !in below
      requires forall k :: 0 <= k < |ps| ==>
        ps[k].key.length == BinaryStringLength(|fs[k].key|) && ps[k].value.length == Size(fs[k].val)
      modifies this
      ensures Is(this, Struct(fs), below + {this}) && length == Size(Struct(fs))
    {
      var total := SumPairLengths(ps, fs);
      data, length := Pairs(ps), total + 2;
      AllPairsAreGrow(ps, fs, below, below + {this});
    }

    // ---- serialize ----------------------------------------------------------------

    /** Writes this object at `index`, and returns the advanced index. */
    method Serialize(buf: array<Byte>, index: nat, ghost v: Value, ghost repr: set<NymphType>) returns (next: nat)
      requires Is(this, v, repr) && index + |Encode(v)| <= buf.Length
      modifies buf
      ensures next == index + |Encode(v)| && Wrote(old(buf[..]), buf[..], index, Encode(v))
      decreases v, 1
    {
      match data
      case NoData =>
        next := index;
        WroteNothing(buf[..], index);
      case Boolean(b) =>
        next := Put(buf, index, [if b then BOOLEAN_TRUE else BOOLEAN_FALSE]);
      case Number(k, n) =>
        next := PutNumber(buf, index, k, n);
      case Chars(c) =>
        next := SerializeString(buf, index);
      case Vector(vs) =>
        next := SerializeArray(vs, buf, index, v.elems, repr);
      case Pairs(ps) =>
        next := SerializeStruct(ps, buf, index, v.fields, repr);
    }

    /** If the flag is left over from an earlier text, this one follows the empty code without a length. */
    method SerializeString(buf: array<Byte>, index: nat) returns (next: nat)
      requires data.Chars? && (data.chars == [] ==> emptyString)
      requires index + |if emptyString then [EMPTY_STRING] + data.chars else EncodeString(data.chars)| <= buf.Length
      modifies buf
      ensures var e := if emptyString then [EMPTY_STRING] + data.chars else EncodeString(data.chars);
        next == index + |e| && Wrote(old(buf[..]), buf[..], index, e)
    {
      ghost var before := buf[..];
      if emptyString {
        next := Put(buf, index, [EMPTY_STRING]);
        next := PutNext(buf, before, index, [EMPTY_STRING], next, data.chars);
      } else {
        var len := LengthField(|data.chars|);
        next := Put(buf, index, [STRING]);
        next := PutNext(buf, before, index, [STRING], next, len);
        next := PutNext(buf, before, index, [STRING] + len, next, data.chars);
      }
    }

    // ---- parseValue ---------------------------------------------------------------

    /**
     * Reads the value whose typecode `tc` stood just before `index` into this fresh object.
     * The index is a C++ int; the caller must know that no octet past the buffer is touched.
     * The source adds the `length` of arrays and structs up without having set it; here it starts at 0.
     */
    method ParseValue(tc: Byte, binmsg: array<Byte>, index: nat)
      returns (ok: bool, next: nat, ghost repr: set<NymphType>)
      requires data == NoData && !emptyString && length == 0
      requires index <= binmsg.Length < 0x8000_0000 && Parser.ParseValue(tc, binmsg[..], index).Parsed?
      modifies this
      ensures var r := Parser.ParseValue(tc, binmsg[..], index);
        ok == r.ok && next == r.next && Apart(this, r.v, repr)
      ensures length == LengthValue(tc, binmsg[..], index)
      ensures fresh(repr - {this})
      decreases binmsg.Length - index, 5
    {
      ok, next, repr := true, index, {this};
      if tc == BOOLEAN_FALSE || tc == BOOLEAN_TRUE {
        SetBool(tc == BOOLEAN_TRUE);
      } else if IsNumberCode(tc) {
        var k := KindOf(tc);
        SetNumber(k, FromLE(binmsg[index..index + Width(k)]));
        next := index + Width(k);
      } else if tc == EMPTY_STRING {
        SetString([]);
      } else if tc == STRING {
        ok, next := ParseString(binmsg, index);
      } else if tc == ARRAY {
        next, repr := ParseArray(binmsg, index);
      } else if tc == STRUCT {
        ok, next, repr := ParseStruct(binmsg, index);
      }
    }

    /** A typecode, and the value that it announces. */
    method ReadTagged(binmsg: array<Byte>, index: nat) returns (ok: bool, next: nat, ghost repr: set<NymphType>)
      requires data == NoData && !emptyString && length == 0
      requires index < binmsg.Length < 0x8000_0000 && ParseTagged(binmsg[..], index).Parsed?
      modifies this
      ensures var r := ParseTagged(binmsg[..], index); ok == r.ok && next == r.next && Apart(this, r.v, repr)
      ensures length == LengthTagged(binmsg[..], index)
      ensures fresh(repr - {this})
      decreases binmsg.Length - index, 0
    {
      ok, next, repr := ParseValue(binmsg[index], binmsg, index + 1);
    }

    /** The key of a pair, whose typecode has been found to be that of a non-empty string. */
    method ReadKey(binmsg: array<Byte>, index: nat) returns (ok: bool, next: nat)
      requires data == NoData && !emptyString && length == 0
      requires index <= binmsg.Length < 0x8000_0000 && Parser.ParseString(binmsg[..], index).Parsed?
      modifies this
      ensures var r := Parser.ParseString(binmsg[..], index);
        ok == r.ok && next == r.next && (ok ==> IsString(this, r.v.chars, {this}))
      ensures length == LengthString(binmsg[..], index)
      decreases binmsg.Length - index, 6
    {
      ghost var repr;
      ok, next, repr := ParseValue(STRING, binmsg, index);
      assert ok ==> IsString(this, Parser.ParseString(binmsg[..], index).v.chars, repr);
    }

    method ParseString(binmsg: array<Byte>, index: nat) returns (ok: bool, next: nat)
      requires data == NoData && !emptyString && length == 0
      requires index <= binmsg.Length && Parser.ParseString(binmsg[..], index).Parsed?
      modifies this
      ensures var r := Parser.ParseString(binmsg[..], index);
        ok == r.ok && next == r.next && Apart(this, r.v, {this})
      ensures length == LengthString(binmsg[..], index)
    {
      var tc := binmsg[index];
      next := index + 1;
      if !IsLengthCode(tc) { return false, next; }
      var w := Width(KindOf(tc));
      var l := FromLE(binmsg[next..next + w]);
      next := next + w;
      assert binmsg[..][index + 1..next] == binmsg[index + 1..next];
      SetString(binmsg[next..next + l]);
      assert binmsg[..][next..next + l] == binmsg[next..next + l];
      return true, next + l;
    }

    method ParseArray(binmsg: array<Byte>, index: nat) returns (next: nat, ghost repr: set<NymphType>)
      requires data == NoData && !emptyString && length == 0
      requires index <= binmsg.Length < 0x8000_0000 && Parser.ParseArray(binmsg[..], index).Parsed?
      modifies this
      ensures var r := Parser.ParseArray(binmsg[..], index);
        r.ok && next == r.next && Apart(this, r.v, repr)
      ensures length == LengthArray(binmsg[..], index)
      ensures fresh(repr - {this})
      decreases binmsg.Length - index, 3
    {
      ghost var s := binmsg[..];
      var numElements := FromLE(binmsg[index..index + 8]);
      assert s[index..index + 8] == binmsg[index..index + 8];
      var vec, total;
      ghost var vs, below;
      vec, next, total, vs, below := ReadElements(numElements, binmsg, index + 8);
      next := next + 1;  // the terminator, whichever octet it is
      repr := HoldVector(vec, total, vs, below);
    }

    method HoldVector(vec: seq<NymphType>, total: nat, ghost vs: seq<Value>, ghost below: set<NymphType>)
      returns (ghost repr: set<NymphType>)
      requires this !in below && AllApart(vec, vs, below)
      modifies this
      ensures repr == below + {this} && Apart(this, Array(vs), repr) && length == old(length) + total + 10
    {
      data, length, repr := Vector(vec), length + total + 10, below + {this};
      VectorApart(this, vec, vs, below);
    }

    method ParseStruct(binmsg: array<Byte>, index: nat) returns (ok: bool, next: nat, ghost repr: set<NymphType>)
      requires data == NoData && !emptyString && length == 0
      requires index <= binmsg.Length < 0x8000_0000 && Parser.ParseStruct(binmsg[..], index).Parsed?
      modifies this
      ensures var r := Parser.ParseStruct(binmsg[..], index);
        ok == r.ok && next == r.next && Apart(this, r.v, repr)
      ensures length == LengthStruct(binmsg[..], index)
      ensures fresh(repr - {this})
      decreases binmsg.Length - index, 4
    {
      var pairs, total;
      ghost var fs, below;
      ok, pairs, next, total, fs, below := ReadPairs(binmsg, index);
      repr := HoldPairs(ok, pairs, total, fs, below);
    }

    method HoldPairs(ok: bool, ps: seq<Entry>, total: nat, ghost fs: seq<Field>, ghost below: set<NymphType>)
      returns (ghost repr: set<NymphType>)
      requires data == NoData && this !in below && AllPairsApart(ps, fs, below)
      modifies this
      ensures Apart(this, if ok then Struct(fs) else Null, repr) && repr <= below + {this}
      ensures length == old(length) + total + if ok then 2 else 0
    {
      length, repr := length + total, {this};
      NullApart(this);
      if ok {
        data, length, repr := Pairs(ps), length + 2, below + {this};
        PairsApart(this, ps, fs, below);
      }
    }
  }

  method PutNumber(buf: array<Byte>, index: nat, k: Kind, n: nat) returns (next: nat)
    requires index + 1 + Width(k) <= buf.Length
    modifies buf
    ensures next == index + 1 + Width(k)
    ensures Wrote(old(buf[..]), buf[..], index, [Code(k)] + LE(n, Width(k)))
  {
    ghost var before := buf[..];
    next := Put(buf, index, [Code(k)]);
    next := PutNext(buf, before, index, [Code(k)], next, LE(n, Width(k)));
  }

  lemma TakeElement(vs: seq<Value>, k: nat)
    requires k < |vs|
    ensures EncodeAll(vs[..k + 1]) == EncodeAll(vs[..k]) + Encode(vs[k])
    ensures |EncodeAll(vs[..k + 1])| <= |EncodeAll(vs)|
  {
    EncodeAllConcat(vs[..k], [vs[k]]);
    assert vs[..k] + [vs[k]] == vs[..k + 1];
    assert EncodeAll([vs[k]]) == Encode(vs[k]) + EncodeAll([]);
    EncodeAllConcat(vs[..k + 1], vs[k + 1..]);
    assert vs[..k + 1] + vs[k + 1..] == vs;
  }

  lemma TakeField(fs: seq<Field>, k: nat)
    requires k < |fs|
    ensures EncodeFields(fs[..k + 1]) == EncodeFields(fs[..k]) + EncodeField(fs[k])
  {
    EncodeFieldsConcat(fs[..k], [fs[k]]);
    assert fs[..k] + [fs[k]] == fs[..k + 1];
    EncodeOneField(fs[k]);
  }

  lemma FieldRoom(fs: seq<Field>, k: nat)
    requires k < |fs|
    ensures |EncodeFields(fs[..k])| + |EncodeField(fs[k])| == |EncodeFields(fs[..k + 1])| <= |EncodeFields(fs)|
  {
    TakeField(fs, k);
    EncodeFieldsConcat(fs[..k + 1], fs[k + 1..]);
    assert fs[..k + 1] + fs[k + 1..] == fs;
  }

  method SerializeArray(vs: seq<NymphType>, buf: array<Byte>, index: nat,
                        ghost ms: seq<Value>, ghost repr: set<NymphType>) returns (next: nat)
    requires AllAre(vs, ms, repr) && index + |Encode(Array(ms))| <= buf.Length
    modifies buf
    ensures next == index + |Encode(Array(ms))| && Wrote(old(buf[..]), buf[..], index, Encode(Array(ms)))
    decreases ms, 1
  {
    ghost var before := buf[..];
    next := Put(buf, index, [ARRAY]);
    next := PutNext(buf, before, index, [ARRAY], next, LE(|vs|, 8));
    next := SerializeElements(vs, buf, next, before, index, [ARRAY] + LE(|vs|, 8), ms, repr);
    next := PutNext(buf, before, index, [ARRAY] + LE(|vs|, 8) + EncodeAll(ms), next, [NONE]);
  }

  /** The element loop, which is also how a message writes its values. */
  method SerializeElements(vs: seq<NymphType>, buf: array<Byte>, index: nat,
                           ghost before: seq<Byte>, ghost start: nat, ghost done: seq<Byte>,
                           ghost ms: seq<Value>, ghost repr: set<NymphType>) returns (next: nat)
    requires AllAre(vs, ms, repr) && Wrote(before, buf[..], start, done) && index == start + |done|
    requires index + |EncodeAll(ms)| <= buf.Length
    modifies buf
    ensures next == start + |done + EncodeAll(ms)| && Wrote(before, buf[..], start, done + EncodeAll(ms))
    decreases ms, 0
  {
    next := index;
    assert done + EncodeAll(ms[..0]) == done;
    for k := 0 to |vs|
      invariant Wrote(before, buf[..], start, done + EncodeAll(ms[..k]))
      invariant next == start + |done| + |EncodeAll(ms[..k])|
    {
      TakeElement(ms, k);
      ghost var mid := buf[..];
      next := vs[k].Serialize(buf, next, ms[k], repr);
      WroteBehind(before, mid, buf[..], start, done, EncodeAll(ms[..k]), Encode(ms[k]));
    }
    assert ms[..|vs|] == ms;
  }

  method SerializeStruct(ps: seq<Entry>, buf: array<Byte>, index: nat, ghost fs: seq<Field>, ghost repr: set<NymphType>)
    returns (next: nat)
    requires AllPairsAre(ps, fs, repr) && index + |Encode(Struct(fs))| <= buf.Length
    modifies buf
    ensures next == index + |Encode(Struct(fs))| && Wrote(old(buf[..]), buf[..], index, Encode(Struct(fs)))
    decreases fs, 1
  {
    ghost var before := buf[..];
    next := Put(buf, index, [STRUCT]);
    next := SerializePairs(ps, buf, next, before, index, fs, repr);
    next := PutNext(buf, before, index, [STRUCT] + EncodeFields(fs), next, [NONE]);
  }

  method SerializePairs(ps: seq<Entry>, buf: array<Byte>, index: nat, ghost before: seq<Byte>, ghost start: nat,
                        ghost fs: seq<Field>, ghost repr: set<NymphType>) returns (next: nat)
    requires AllPairsAre(ps, fs, repr) && Wrote(before, buf[..], start, [STRUCT]) && index == start + 1
    requires index + |EncodeFields(fs)| <= buf.Length
    modifies buf
    ensures next == index + |EncodeFields(fs)| && Wrote(before, buf[..], start, [STRUCT] + EncodeFields(fs))
    decreases fs, 0
  {
    next := index;
    for k := 0 to |ps|
      invariant Wrote(before, buf[..], start, [STRUCT] + EncodeFields(fs[..k]))
      invariant next == start + 1 + |EncodeFields(fs[..k])|
    {
      next := SerializeNextPair(ps, k, buf, next, before, start, fs, repr);
    }
    assert fs[..|ps|] == fs;
  }

  /** One turn of the pair loop. */
  method SerializeNextPair(ps: seq<Entry>, k: nat, buf: array<Byte>, index: nat, ghost before: seq<Byte>,
                           ghost start: nat, ghost fs: seq<Field>, ghost repr: set<NymphType>) returns (next: nat)
    requires k < |ps| && AllPairsAre(ps, fs, repr)
    requires Wrote(before, buf[..], start, [STRUCT] + EncodeFields(fs[..k]))
    requires index == start + 1 + |EncodeFields(fs[..k])|
    requires start + 1 + |EncodeFields(fs)| <= buf.Length
    modifies buf
    ensures Wrote(before, buf[..], start, [STRUCT] + EncodeFields(fs[..k + 1]))
    ensures next == start + 1 + |EncodeFields(fs[..k + 1])|
    decreases fs[k], 1
  {
    FieldRoom(fs, k);
    ghost var mid := buf[..];
    next := SerializePair(ps[k], buf, index, fs[k], repr);
    WroteField(before, mid, buf[..], start, fs, k);
  }

  lemma WroteField(before: seq<Byte>, mid: seq<Byte>, after: seq<Byte>, start: nat, fs: seq<Field>, k: nat)
    requires k < |fs| && Wrote(before, mid, start, [STRUCT] + EncodeFields(fs[..k]))
    requires Wrote(mid, after, start + 1 + |EncodeFields(fs[..k])|, EncodeField(fs[k]))
    ensures Wrote(before, after, start, [STRUCT] + EncodeFields(fs[..k + 1]))
  {
    TakeField(fs, k);
    WroteBehind(before, mid, after, start, [STRUCT], EncodeFields(fs[..k]), EncodeField(fs[k]));
  }

  method SerializePair(p: Entry, buf: array<Byte>, index: nat, ghost f: Field, ghost repr: set<NymphType>)
    returns (next: nat)
    requires IsString(p.key, f.key, repr) && Is(p.value, f.val, repr) && index + |EncodeField(f)| <= buf.Length
    modifies buf
    ensures next == index + |EncodeField(f)| && Wrote(old(buf[..]), buf[..], index, EncodeField(f))
    decreases f, 0
  {
    ghost var before := buf[..];
    next := p.key.SerializeString(buf, index);
    ghost var mid := buf[..];
    next := p.value.Serialize(buf, next, f.val, repr);
    WroteThen(before, mid, buf[..], index, EncodeString(f.key), Encode(f.val));
  }

  /** The element loop of parseValue. */
  method ReadElements(numElements: nat, binmsg: array<Byte>, index: nat)
    returns (vec: seq<NymphType>, next: nat, total: nat, ghost vs: seq<Value>, ghost below: set<NymphType>)
    requires index <= binmsg.Length < 0x8000_0000
    requires ParseElements(numElements, binmsg[..], index, []).Elements?
    ensures ParseElements(numElements, binmsg[..], index, []) == Elements(vs, next)
    ensures total == LengthElements(numElements, binmsg[..], index)
    ensures AllApart(vec, vs, below) && fresh(below)
    decreases binmsg.Length - index, 2
  {
    ghost var s := binmsg[..];
    vec, next, total, vs, below := [], index, 0, [], {};
    while |vec| < numElements
      invariant |vec| <= numElements && index <= next <= |s| && binmsg[..] == s
      invariant ParseElements(numElements - |vec|, s, next, vs)
             == ParseElements(numElements, s, index, [])
      invariant total + LengthElements(numElements - |vec|, s, next) == LengthElements(numElements, s, index)
      invariant AllApart(vec, vs, below) && fresh(below)
    {
      assert ParseTagged(s, next).Parsed?;
      ghost var v, r := ParseTagged(s, next).v, {};
      vec, next, r := ReadElement(binmsg, next, vec, vs, below);
      total := total + vec[|vec| - 1].length;
      vs, below := vs + [v], below + r;
    }
  }

  /** One turn of the element loop, and of the value loop of a message. */
  method ReadElement(binmsg: array<Byte>, index: nat, vec: seq<NymphType>, ghost vs: seq<Value>,
                     ghost below: set<NymphType>)
    returns (more: seq<NymphType>, next: nat, ghost repr: set<NymphType>)
    requires index < binmsg.Length < 0x8000_0000 && ParseTagged(binmsg[..], index).Parsed?
    requires AllApart(vec, vs, below)
    ensures next == ParseTagged(binmsg[..], index).next
    ensures |more| == |vec| + 1 && more[..|vec|] == vec && more[|vec|].length == LengthTagged(binmsg[..], index)
    ensures AllApart(more, vs + [ParseTagged(binmsg[..], index).v], below + repr)
    ensures fresh(repr)
    decreases binmsg.Length - index, 1
  {
    var elVal := new NymphType();
    var ignored;
    ignored, next, repr := elVal.ReadTagged(binmsg, index);
    AllApartSnoc(vec, vs, below, elVal, ParseTagged(binmsg[..], index).v, repr);
    more := vec + [elVal];
  }

  /** std::map::insert on the entries in iteration order. */
  function InsertEntry(m: seq<Entry>, e: Entry): seq<Entry> {
    if m == [] then [e]
    else if m[0].name == e.name then m
    else if Less(e.name, m[0].name) then [e] + m
    else [m[0]] + InsertEntry(m[1..], e)
  }

  /** The map keys of parsed entries are the texts of their key objects. */
  ghost predicate Named(ps: seq<Entry>, fs: seq<Field>) {
    |ps| == |fs| && forall k :: 0 <= k < |ps| ==> ps[k].name == fs[k].key
  }

  lemma {:induction false} InsertEntryModels(ps: seq<Entry>, fs: seq<Field>, e: Entry, f: Field, repr: set<NymphType>)
    requires Named(ps, fs) && AllPairsAre(ps, fs, repr) && e.name == f.key
    requires IsString(e.key, f.key, repr) && Is(e.value, f.val, repr)
    ensures Named(InsertEntry(ps, e), Insert(fs, f)) && AllPairsAre(InsertEntry(ps, e), Insert(fs, f), repr)
    decreases |ps|
  {
    if ps == [] {
    } else if ps[0].name != e.name && !Less(e.name, ps[0].name) {
      InsertEntryModels(ps[1..], fs[1..], e, f, repr);
    }
  }

  /** The key and the value of the pair that stands at `i`. */
  ghost predicate PairIs(key: NymphType, value: NymphType, s: seq<Byte>, i: nat, repr: set<NymphType>)
    requires i < |s| && ParsePair(s, i).Pair?
    reads repr, key, value
  {
    EntryApart(key, value, ParsePair(s, i).f, repr) && key.length + value.length == LengthPair(s, i)
  }

  /** One turn of the pair loop: a key that must be a non-empty string, and its value. */
  method ReadPair(binmsg: array<Byte>, index: nat)
    returns (ok: bool, key: NymphType, value: NymphType, next: nat, ghost below: set<NymphType>)
    requires index < binmsg.Length < 0x8000_0000 && !ParsePair(binmsg[..], index).PairOutOfBounds?
    ensures var p := ParsePair(binmsg[..], index); next == p.next && ok == p.Pair?
    ensures ok ==> PairIs(key, value, binmsg[..], index, below)
    ensures fresh(below)
    decreases binmsg.Length - index, 1
  {
    key := new NymphType();
    value := new NymphType();
    ok, next, below := false, index, {};
    if binmsg[index] != STRING { return; }
    ok, next := key.ReadKey(binmsg, index + 1);
    if !ok { return; }
    ok, next, below := ReadPairValue(binmsg, index, key, value, next);
  }

  method ReadPairValue(binmsg: array<Byte>, ghost index: nat, ghost key: NymphType, value: NymphType, from: nat)
    returns (ok: bool, next: nat, ghost below: set<NymphType>)
    requires index < from <= binmsg.Length < 0x8000_0000 && !ParsePair(binmsg[..], index).PairOutOfBounds?
    requires key.data.Chars? && IsString(key, key.data.chars, {key})
    requires binmsg[index] == STRING && ParseString(binmsg[..], index + 1) == Parsed(true, Str(key.data.chars), from)
    requires key.length == LengthString(binmsg[..], index + 1)
    requires value.data == NoData && !value.emptyString && value.length == 0 && value != key
    modifies value
    ensures var p := ParsePair(binmsg[..], index); next == p.next && ok == p.Pair?
    ensures ok ==> PairIs(key, value, binmsg[..], index, below)
    ensures fresh(below - {key, value})
    decreases binmsg.Length - index, 0
  {
    ok, next, below := value.ReadTagged(binmsg, from);
    if ok { KeyAndValueApart(key, value, ParsePair(binmsg[..], index).f, below); }
    below := {key} + below;
  }

  /** What the pair loop has made of the octets from `i` on when it ends. */
  ghost predicate PairsRead(s: seq<Byte>, i: nat, ok: bool, next: nat, total: nat, fs: seq<Field>)
    requires i <= |s|
  {
    var r := ParseFields(s, i, []);
    r.Fields? && ok == r.ok && next == r.next && (ok ==> fs == InsertAll([], r.pairs)) && total == LengthFields(s, i)
  }

  /** And when it has come to `at`, with the pairs `read`. */
  ghost predicate PairsSoFar(s: seq<Byte>, i: nat, at: nat, read: seq<Field>, total: nat, fs: seq<Field>) {
    && i <= at < |s| && fs == InsertAll([], read) && ParseFields(s, at, read).Fields?
    && ParseFields(s, at, read) == ParseFields(s, i, []) && total + LengthFields(s, at) == LengthFields(s, i)
  }

  lemma PairsTurn(s: seq<Byte>, i: nat, at: nat, read: seq<Field>, total: nat, fs: seq<Field>)
    requires PairsSoFar(s, i, at, read, total, fs) && s[at] != NONE
    ensures var p := ParsePair(s, at);
      && !p.PairOutOfBounds?
      && (p.BadPair? ==> PairsRead(s, i, false, p.next, total, fs))
      && (p.Pair? ==> PairsSoFar(s, i, p.next, read + [p.f], total + LengthPair(s, at), Insert(fs, p.f)))
  {
    var p := ParsePair(s, at);
    if p.Pair? {
      InsertAllAppend([], read, [p.f]);
      assert ParseFields(s, p.next, read + [p.f]).Fields?;
    }
  }

  lemma PairsEnd(s: seq<Byte>, i: nat, at: nat, read: seq<Field>, total: nat, fs: seq<Field>)
    requires PairsSoFar(s, i, at, read, total, fs) && s[at] == NONE
    ensures PairsRead(s, i, true, at + 1, total, fs)
  {
  }

  method ReadAndInsert(binmsg: array<Byte>, index: nat, pairs: seq<Entry>, ghost fs: seq<Field>,
                       ghost below: set<NymphType>)
    returns (ok: bool, more: seq<Entry>, next: nat, size: nat, ghost repr: set<NymphType>)
    requires index < binmsg.Length < 0x8000_0000 && !ParsePair(binmsg[..], index).PairOutOfBounds?
    requires Named(pairs, fs) && AllPairsApart(pairs, fs, below)
    ensures var p := ParsePair(binmsg[..], index); next == p.next && ok == p.Pair?
    ensures ok ==> size == LengthPair(binmsg[..], index)
    ensures var p := ParsePair(binmsg[..], index); var gs := if p.Pair? then Insert(fs, p.f) else fs;
      Named(more, gs) && AllPairsApart(more, gs, below + repr)
    ensures fresh(repr)
    decreases binmsg.Length - index, 2
  {
    var key, value;
    ok, key, value, next, repr := ReadPair(binmsg, index);
    more, size := pairs, 0;
    if ok {
      size := key.length + value.length;
      var e := Entry(key.data.chars, key, value);
      InsertApart(pairs, fs, below, e, ParsePair(binmsg[..], index).f, repr);
      more := InsertEntry(pairs, e);
    } else {
      repr := {};
      assert below + {} == below;
    }
  }

  /** The pair loop of parseValue. */
  method ReadPairs(binmsg: array<Byte>, index: nat)
    returns (ok: bool, pairs: seq<Entry>, next: nat, total: nat, ghost fs: seq<Field>, ghost below: set<NymphType>)
    requires index <= binmsg.Length < 0x8000_0000 && ParseFields(binmsg[..], index, []).Fields?
    ensures PairsRead(binmsg[..], index, ok, next, total, fs)
    ensures AllPairsApart(pairs, fs, below) && fresh(below)
    decreases binmsg.Length - index, 3
  {
    ghost var s, read := binmsg[..], [];
    pairs, next, total, fs, below := [], index, 0, [], {};
    while binmsg[next] != NONE
      invariant binmsg[..] == s && PairsSoFar(s, index, next, read, total, fs)
      invariant Named(pairs, fs) && AllPairsApart(pairs, fs, below) && fresh(below)
      decreases |s| - next
    {
      PairsTurn(s, index, next, read, total, fs);
      ghost var p, r := ParsePair(s, next), {};
      var size;
      ok, pairs, next, size, r := ReadAndInsert(binmsg, next, pairs, fs, below);
      below := below + r;
      if !ok { return; }
      total, fs, read := total + size, Insert(fs, p.f), read + [p.f];
    }
    PairsEnd(s, index, next, read, total, fs);
    return true, pairs, next + 1, total, fs, below;
  }

  // ---- Which tree an object stands for --------------------------------------------

  /** The object `t`, with everything below it, is the tree `v`; all these objects are in `repr`. */
  ghost predicate Is(t: NymphType, v: Value, repr: set<NymphType>)
    reads repr
    decreases v, 1
  {
    && t in repr
    && match t.data
       case NoData => v == Null
       case Boolean(b) => v == Bool(b)
       case Number(k, n) => v == Num(k, n)
       case Chars(c) => v == Str(c) && t.emptyString == (c == [])
       case Vector(vs) => v.Array? && AllAre(vs, v.elems, repr)
       case Pairs(ps) => v.Struct? && AllPairsAre(ps, v.fields, repr)
  }

  ghost predicate AllAre(ts: seq<NymphType>, vs: seq<Value>, repr: set<NymphType>)
    reads repr
    decreases vs, 0
  {
    |ts| == |vs| && forall k :: 0 <= k < |ts| ==> Is(ts[k], vs[k], repr)
  }

  ghost predicate AllPairsAre(ps: seq<Entry>, fs: seq<Field>, repr: set<NymphType>)
    reads repr
    decreases fs, 0
  {
    |ps| == |fs| && forall k :: 0 <= k < |ps| ==>
      IsString(ps[k].key, fs[k].key, repr) && Is(ps[k].value, fs[k].val, repr)
  }

  ghost predicate IsString(t: NymphType, c: seq<Byte>, repr: set<NymphType>)
    reads repr
  {
    t in repr && t.data == Chars(c) && t.emptyString == (c == [])
  }

  lemma {:induction false} IsGrow(t: NymphType, v: Value, repr: set<NymphType>, more: set<NymphType>)
    requires Is(t, v, repr) && repr <= more
    ensures Is(t, v, more)
    decreases v, 1
  {
    match t.data
    case Vector(vs) => AllAreGrow(vs, v.elems, repr, more);
    case Pairs(ps) => AllPairsAreGrow(ps, v.fields, repr, more);
    case _ =>
  }

  lemma {:induction false} AllAreGrow(ts: seq<NymphType>, vs: seq<Value>, repr: set<NymphType>, more: set<NymphType>)
    requires AllAre(ts, vs, repr) && repr <= more
    ensures AllAre(ts, vs, more)
    decreases vs, 0
  {
    forall k | 0 <= k < |ts| ensures Is(ts[k], vs[k], more) {
      IsGrow(ts[k], vs[k], repr, more);
    }
  }

  lemma {:induction false} AllPairsAreGrow(ps: seq<Entry>, fs: seq<Field>, repr: set<NymphType>, more: set<NymphType>)
    requires AllPairsAre(ps, fs, repr) && repr <= more
    ensures AllPairsAre(ps, fs, more)
    decreases fs, 0
  {
    forall k | 0 <= k < |ps| ensures IsString(ps[k].key, fs[k].key, more) && Is(ps[k].value, fs[k].val, more) {
      IsGrow(ps[k].value, fs[k].val, repr, more);
    }
  }

  // ---- Which objects it is made of ------------------------------------------------

  /** The objects of a tree, each as often as it occurs in it. */
  ghost function Objects(t: NymphType, v: Value, repr: set<NymphType>): multiset<NymphType>
    requires Is(t, v, repr)
    reads repr
    decreases v, 1
  {
    multiset{t} +
      match t.data
      case Vector(vs) => ObjectsAll(vs, v.elems, repr)
      case Pairs(ps) => ObjectsPairs(ps, v.fields, repr)
      case _ => multiset{}
  }

  ghost function ObjectsAll(ts: seq<NymphType>, vs: seq<Value>, repr: set<NymphType>): multiset<NymphType>
    requires AllAre(ts, vs, repr)
    reads repr
    decreases vs, 0
  {
    if ts == [] then multiset{} else Objects(ts[0], vs[0], repr) + ObjectsAll(ts[1..], vs[1..], repr)
  }

  ghost function ObjectsPairs(ps: seq<Entry>, fs: seq<Field>, repr: set<NymphType>): multiset<NymphType>
    requires AllPairsAre(ps, fs, repr)
    reads repr
    decreases fs, 0
  {
    if ps == [] then multiset{}
    else multiset{ps[0].key} + Objects(ps[0].value, fs[0].val, repr) + ObjectsPairs(ps[1..], fs[1..], repr)
  }

  /** The object `t` is the tree `v`, and no object occurs in it twice. */
  ghost predicate Apart(t: NymphType, v: Value, repr: set<NymphType>)
    reads repr
  {
    Is(t, v, repr) && Objects(t, v, repr) <= multiset(repr)
  }

  ghost predicate AllApart(ts: seq<NymphType>, vs: seq<Value>, repr: set<NymphType>)
    reads repr
  {
    AllAre(ts, vs, repr) && ObjectsAll(ts, vs, repr) <= multiset(repr)
  }

  ghost predicate EntryApart(key: NymphType, value: NymphType, f: Field, repr: set<NymphType>)
    reads repr
  {
    && IsString(key, f.key, repr) && Is(value, f.val, repr)
    && multiset{key} + Objects(value, f.val, repr) <= multiset(repr)
  }

  ghost predicate AllPairsApart(ps: seq<Entry>, fs: seq<Field>, repr: set<NymphType>)
    reads repr
  {
    AllPairsAre(ps, fs, repr) && ObjectsPairs(ps, fs, repr) <= multiset(repr)
  }

  lemma {:induction false} ObjectsGrow(t: NymphType, v: Value, repr: set<NymphType>, more: set<NymphType>)
    requires Is(t, v, repr) && repr <= more
    ensures Is(t, v, more) && Objects(t, v, more) == Objects(t, v, repr)
    decreases v, 1
  {
    IsGrow(t, v, repr, more);
    match t.data
    case Vector(vs) => ObjectsAllGrow(vs, v.elems, repr, more);
    case Pairs(ps) => ObjectsPairsGrow(ps, v.fields, repr, more);
    case _ =>
  }

  lemma {:induction false} ObjectsAllGrow(ts: seq<NymphType>, vs: seq<Value>, repr: set<NymphType>,
                                          more: set<NymphType>)
    requires AllAre(ts, vs, repr) && repr <= more
    ensures AllAre(ts, vs, more) && ObjectsAll(ts, vs, more) == ObjectsAll(ts, vs, repr)
    decreases vs, 0
  {
    AllAreGrow(ts, vs, repr, more);
    if ts == [] {
    } else {
      ObjectsGrow(ts[0], vs[0], repr, more);
      ObjectsAllGrow(ts[1..], vs[1..], repr, more);
    }
  }

  lemma {:induction false} ObjectsPairsGrow(ps: seq<Entry>, fs: seq<Field>, repr: set<NymphType>, more: set<NymphType>)
    requires AllPairsAre(ps, fs, repr) && repr <= more
    ensures AllPairsAre(ps, fs, more) && ObjectsPairs(ps, fs, more) == ObjectsPairs(ps, fs, repr)
    decreases fs, 0
  {
    AllPairsAreGrow(ps, fs, repr, more);
    if ps == [] {
    } else {
      ObjectsGrow(ps[0].value, fs[0].val, repr, more);
      ObjectsPairsGrow(ps[1..], fs[1..], repr, more);
    }
  }

  lemma {:induction false} ObjectsAllSnoc(ts: seq<NymphType>, vs: seq<Value>, t: NymphType, v: Value,
                                          repr: set<NymphType>)
    requires AllAre(ts, vs, repr) && Is(t, v, repr)
    ensures AllAre(ts + [t], vs + [v], repr)
    ensures ObjectsAll(ts + [t], vs + [v], repr) == ObjectsAll(ts, vs, repr) + Objects(t, v, repr)
    decreases |ts|
  {
    if ts == [] {
      assert ts + [t] == [t] && vs + [v] == [v];
      assert [t][1..] == [] && [v][1..] == [];
    } else {
      assert (ts + [t])[1..] == ts[1..] + [t] && (vs + [v])[1..] == vs[1..] + [v];
      ObjectsAllSnoc(ts[1..], vs[1..], t, v, repr);
    }
  }

  /** One more element, made of objects of its own. */
  lemma AllApartSnoc(ts: seq<NymphType>, vs: seq<Value>, repr: set<NymphType>,
                     t: NymphType, v: Value, r: set<NymphType>)
    requires AllApart(ts, vs, repr) && Apart(t, v, r) && repr !! r
    ensures AllApart(ts + [t], vs + [v], repr + r)
  {
    ObjectsAllGrow(ts, vs, repr, repr + r);
    ObjectsGrow(t, v, r, repr + r);
    ObjectsAllSnoc(ts, vs, t, v, repr + r);
  }

  lemma NullApart(t: NymphType)
    requires t.data == NoData
    ensures Apart(t, Null, {t})
  {
  }

  lemma VectorApart(t: NymphType, ts: seq<NymphType>, vs: seq<Value>, below: set<NymphType>)
    requires t.data == Vector(ts) && t !in below && AllApart(ts, vs, below)
    ensures Apart(t, Array(vs), below + {t})
  {
    ObjectsAllGrow(ts, vs, below, below + {t});
  }

  lemma PairsApart(t: NymphType, ps: seq<Entry>, fs: seq<Field>, below: set<NymphType>)
    requires t.data == Pairs(ps) && t !in below && AllPairsApart(ps, fs, below)
    ensures Apart(t, Struct(fs), below + {t})
  {
    ObjectsPairsGrow(ps, fs, below, below + {t});
  }

  lemma KeyAndValueApart(key: NymphType, value: NymphType, f: Field, r: set<NymphType>)
    requires IsString(key, f.key, {key}) && Apart(value, f.val, r) && key !in r
    ensures EntryApart(key, value, f, {key} + r)
  {
    ObjectsGrow(value, f.val, r, {key} + r);
  }

  /** An insertion adds the objects of the pair, or drops them when the key is there already. */
  lemma {:induction false} ObjectsInsert(ps: seq<Entry>, fs: seq<Field>, e: Entry, f: Field, repr: set<NymphType>)
    requires Named(ps, fs) && AllPairsAre(ps, fs, repr) && e.name == f.key
    requires IsString(e.key, f.key, repr) && Is(e.value, f.val, repr)
    ensures AllPairsAre(InsertEntry(ps, e), Insert(fs, f), repr)
    ensures ObjectsPairs(InsertEntry(ps, e), Insert(fs, f), repr)
      <= ObjectsPairs(ps, fs, repr) + (multiset{e.key} + Objects(e.value, f.val, repr))
    decreases |ps|
  {
    InsertEntryModels(ps, fs, e, f, repr);
    if ps == [] {
    } else if ps[0].name != e.name && !Less(e.name, ps[0].name) {
      ObjectsInsert(ps[1..], fs[1..], e, f, repr);
    }
  }

  lemma InsertApart(ps: seq<Entry>, fs: seq<Field>, repr: set<NymphType>, e: Entry, f: Field, r: set<NymphType>)
    requires Named(ps, fs) && AllPairsApart(ps, fs, repr) && e.name == f.key
    requires EntryApart(e.key, e.value, f, r) && repr !! r
    ensures Named(InsertEntry(ps, e), Insert(fs, f))
    ensures AllPairsApart(InsertEntry(ps, e), Insert(fs, f), repr + r)
  {
    var more := repr + r;
    ObjectsPairsGrow(ps, fs, repr, more);
    ObjectsGrow(e.value, f.val, r, more);
    InsertEntryModels(ps, fs, e, f, more);
    ObjectsInsert(ps, fs, e, f, more);
    JoinFits(ObjectsPairs(ps, fs, repr), repr, multiset{e.key} + Objects(e.value, f.val, r), r,
             ObjectsPairs(InsertEntry(ps, e), Insert(fs, f), more));
  }

  lemma JoinFits(a: multiset<NymphType>, r: set<NymphType>, b: multiset<NymphType>, s: set<NymphType>,
                 c: multiset<NymphType>)
    requires a <= multiset(r) && b <= multiset(s) && r !! s && c <= a + b
    ensures c <= multiset(r + s)
  {
  }

  // ---- bytes() --------------------------------------------------------------------

  method SumLengths(v: seq<NymphType>, ghost ms: seq<Value>) returns (total: nat)
    requires |v| == |ms| && forall k :: 0 <= k < |v| ==> v[k].length == Size(ms[k])
    ensures total == SizeAll(ms)
  {
    total := 0;
    for i := 0 to |v|
      invariant total == SizeAll(ms[..i])
    {
      SizeAllConcat(ms[..i], [ms[i]]);
      assert ms[..i] + [ms[i]] == ms[..i + 1];
      total := total + v[i].length;
    }
    assert ms[..|v|] == ms;
  }

  method SumPairLengths(ps: seq<Entry>, ghost fs: seq<Field>) returns (total: nat)
    requires |ps| == |fs| && forall k :: 0 <= k < |ps| ==>
      ps[k].key.length == BinaryStringLength(|fs[k].key|) && ps[k].value.length == Size(fs[k].val)
    ensures total == SizeFields(fs)
  {
    total := 0;
    for i := 0 to |ps|
      invariant total == SizeFields(fs[..i])
    {
      SizeFieldsConcat(fs[..i], [fs[i]]);
      assert fs[..i] + [fs[i]] == fs[..i + 1];
      total := total + ps[i].key.length;
      total := total + ps[i].value.length;
    }
    assert fs[..|ps|] == fs;
  }
}
