/** The `length` that parseValue leaves in an object, and what it is for values that were sent. */
module Lengths {
  import opened Bytes
  import opened Values
  import opened Parser

  /** What parseValue(tc, s, i) adds up in a new object. */
  function LengthValue(tc: Byte, s: seq<Byte>, i: nat): nat
    requires i <= |s|
    decreases |s| - i, 4
  {
    if tc == BOOLEAN_FALSE || tc == BOOLEAN_TRUE then 1
    else if IsNumberCode(tc) then 1 + Width(KindOf(tc))
    else if tc == EMPTY_STRING then BinaryStringLength(0)
    else if tc == STRING then LengthString(s, i)
    else if tc == ARRAY then LengthArray(s, i)
    else if tc == STRUCT then LengthStruct(s, i)
    else 0
  }

  /** A string of a bad length type leaves it unset. */
  function LengthString(s: seq<Byte>, i: nat): nat
    requires i <= |s|
  {
    var r := ParseString(s, i);
    if r.Parsed? && r.ok then BinaryStringLength(|r.v.chars|) else 0
  }

  function LengthTagged(s: seq<Byte>, i: nat): nat
    requires i <= |s|
    decreases |s| - i, 1
  {
    if i == |s| then 0 else LengthValue(s[i], s, i + 1)
  }

  function LengthArray(s: seq<Byte>, i: nat): nat
    requires i <= |s|
    decreases |s| - i, 3
  {
    if i + 8 > |s| then 0 else LengthElements(FromLE(s[i..i + 8]), s, i + 8) + 10
  }

  function LengthElements(n: nat, s: seq<Byte>, i: nat): nat
    requires i <= |s|
    decreases |s| - i, 2
  {
    if n == 0 || ParseTagged(s, i).OutOfBounds? then 0
    else LengthTagged(s, i) + LengthElements(n - 1, s, ParseTagged(s, i).next)
  }

  /** A struct that is given up half way keeps what its whole pairs have added. */
  function LengthStruct(s: seq<Byte>, i: nat): nat
    requires i <= |s|
    decreases |s| - i, 3
  {
    var r := ParseFields(s, i, []);
    LengthFields(s, i) + if r.Fields? && r.ok then 2 else 0
  }

  /** A pair whose key is there already is counted, though the map drops it. */
  function LengthFields(s: seq<Byte>, i: nat): nat
    requires i <= |s|
    decreases |s| - i, 2
  {
    if i == |s| || s[i] == NONE || !ParsePair(s, i).Pair? then 0
    else LengthPair(s, i) + LengthFields(s, ParsePair(s, i).next)
  }

  function LengthPair(s: seq<Byte>, i: nat): nat
    requires i < |s| && ParsePair(s, i).Pair?
    decreases |s| - i, 1
  {
    BinaryStringLength(|ParsePair(s, i).f.key|) + LengthTagged(s, ParseString(s, i + 1).next)
  }

  /** The parser counts for a value the very size that its sender announced. */
  lemma {:induction false} LengthEncoded(v: Value, s: seq<Byte>, i: nat)
    requires InRange(v) && NoEmptyKeys(v) && At(s, i, Encode(v))
    ensures i <= |s| && LengthTagged(s, i) == Size(v)
    decreases v, 1
  {
    match v
    case Bool(_) => AtFirst(s, i, Encode(v));
    case Num(k, n) => AtFirst(s, i, Encode(v));
    case Str(c) => LengthEncodedString(c, s, i);
    case Array(es) =>
      ArrayLayout(es, NONE, s, i);
      TaggedArrayLength(s, i);
      LengthEncodedElements(es, s, i + 9);
    case Struct(fs) =>
      StructLayout(fs, s, i);
      LengthEncodedStruct(fs, s, i);
      LengthEncodedFields(fs, s, i + 1);
  }

  lemma LengthEncodedString(c: seq<Byte>, s: seq<Byte>, i: nat)
    requires StringFits(c) && At(s, i, EncodeString(c))
    ensures i <= |s| && LengthTagged(s, i) == BinaryStringLength(|c|)
  {
    AtFirst(s, i, EncodeString(c));
    ParseEncodedString(c, s, i);
  }

  lemma TaggedArrayLength(s: seq<Byte>, i: nat)
    requires i + 9 <= |s| && s[i] == ARRAY
    ensures LengthTagged(s, i) == LengthElements(FromLE(s[i + 1..i + 9]), s, i + 9) + 10
  {
    assert LengthTagged(s, i) == LengthValue(s[i], s, i + 1) == LengthArray(s, i + 1);
  }

  lemma TaggedStructLength(s: seq<Byte>, i: nat)
    requires i < |s| && s[i] == STRUCT && ParseFields(s, i + 1, []).Fields? && ParseFields(s, i + 1, []).ok
    ensures LengthTagged(s, i) == LengthFields(s, i + 1) + 2
  {
    assert LengthTagged(s, i) == LengthValue(s[i], s, i + 1) == LengthStruct(s, i + 1);
  }

  lemma LengthEncodedStruct(fs: seq<Field>, s: seq<Byte>, i: nat)
    requires FieldsInRange(fs) && NoEmptyKeysFields(fs) && At(s, i, Encode(Struct(fs)))
    ensures i < |s| && s[i] == STRUCT && LengthTagged(s, i) == LengthFields(s, i + 1) + 2
  {
    StructLayout(fs, s, i);
    ParsedStruct(fs, s, i + 1);
    TaggedStructLength(s, i);
  }

  lemma ParsedStruct(fs: seq<Field>, s: seq<Byte>, i: nat)
    requires FieldsInRange(fs) && NoEmptyKeysFields(fs) && At(s, i, EncodeFields(fs))
    requires i + |EncodeFields(fs)| < |s| && s[i + |EncodeFields(fs)|] == NONE
    ensures i <= |s| && ParseFields(s, i, []).Fields? && ParseFields(s, i, []).ok
  {
    var end := i + |EncodeFields(fs)|;
    ParseEncodedFields(fs, s, i, end);
    LoopOverPairs(s, i, NormaliseFields(fs), end, []);
  }

  lemma {:induction false} LengthEncodedElements(vs: seq<Value>, s: seq<Byte>, i: nat)
    requires AllInRange(vs) && NoEmptyKeysAll(vs) && At(s, i, EncodeAll(vs))
    ensures i <= |s| && LengthElements(|vs|, s, i) == SizeAll(vs)
    decreases vs, 0
  {
    if vs == [] {
    } else {
      AtConcat(s, i, Encode(vs[0]), EncodeAll(vs[1..]));
      ParseEncoded(vs[0], s, i);
      LengthEncoded(vs[0], s, i);
      LengthEncodedElements(vs[1..], s, i + |Encode(vs[0])|);
    }
  }

  /** The first of several encoded fields: where its value stands, and what the pair adds. */
  lemma FirstPairLength(fs: seq<Field>, s: seq<Byte>, i: nat) returns (mid: nat, j: nat)
    requires fs != [] && FieldsInRange(fs) && NoEmptyKeysFields(fs) && At(s, i, EncodeFields(fs))
    ensures i < |s| && s[i] != NONE && mid <= |s| && At(s, mid, Encode(fs[0].val))
    ensures At(s, j, EncodeFields(fs[1..])) && j + |EncodeFields(fs[1..])| == i + |EncodeFields(fs)|
    ensures ParsePair(s, i).Pair? && ParsePair(s, i).next == j
    ensures LengthPair(s, i) == BinaryStringLength(|fs[0].key|) + LengthTagged(s, mid)
  {
    mid, j := ReadFirstKey(fs, s, i);
    ParseEncoded(fs[0].val, s, mid);
    KeyEnd(fs, s, i);
  }

  lemma KeyEnd(fs: seq<Field>, s: seq<Byte>, i: nat)
    requires fs != [] && fs[0].key != [] && StringFits(fs[0].key) && At(s, i, EncodeFields(fs))
    ensures i < |s| && ParseString(s, i + 1) == Parsed(true, Str(fs[0].key), i + |EncodeString(fs[0].key)|)
  {
    SplitFields(fs, s, i);
    AtConcat(s, i, EncodeString(fs[0].key), Encode(fs[0].val));
    StringLayout(fs[0].key, s, i);
    ParseStringBody(fs[0].key, s, i + 1);
  }

  lemma {:induction false} LengthEncodedFields(fs: seq<Field>, s: seq<Byte>, i: nat)
    requires FieldsInRange(fs) && NoEmptyKeysFields(fs) && At(s, i, EncodeFields(fs))
    requires i + |EncodeFields(fs)| < |s| && s[i + |EncodeFields(fs)|] == NONE
    ensures LengthFields(s, i) == SizeFields(fs)
    decreases fs, 0
  {
    if fs == [] {
    } else {
      var mid, j := FirstPairLength(fs, s, i);
      LengthEncoded(fs[0].val, s, mid);
      LengthEncodedFields(fs[1..], s, j);
    }
  }
}
