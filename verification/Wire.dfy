/** The octets on the wire, one by one, as the protocol specification lists them. */
module Wire {
  import opened Bytes
  import opened Values
  import opened Messages
  import opened MethodTable

  // ---- Numbers --------------------------------------------------------------------

  lemma LEOctets(n: nat)
    ensures LE(n, 1) == [n % 256]
    ensures LE(n, 2) == [n % 256, n / 0x100 % 256]
    ensures LE(n, 4) == [n % 256, n / 0x100 % 256, n / 0x1_0000 % 256, n / 0x100_0000 % 256]
  {
    Pow256Values();
    forall w, k: nat | k < w ensures LE(n, w)[k] == n / Pow256(k) % 256 { LEDigit(n, w, k); }
    assert Pow256(3) == 0x100_0000;
    assert n / 1 == n;
  }

  // ---- Values ---------------------------------------------------------------------

  /** The place of a fixed-width type among Uint8, Sint8, Uint16, Sint16, .., Float, Double. */
  function Place(k: Kind): nat {
    match k
    case U8 => 0 case S8 => 1 case U16 => 2 case S16 => 3 case U32 => 4
    case S32 => 5 case U64 => 6 case S64 => 7 case F32 => 8 case F64 => 9
  }

  /** A number is its typecode and its octets, the least significant one first: 1, 2, 4 or 8 of them. */
  lemma NumberOctets(k: Kind, n: nat)
    ensures var e := Encode(Num(k, n)); var w := |e| - 1;
      && w == (if k.U8? || k.S8? then 1 else if k.U16? || k.S16? then 2
               else if k.U32? || k.S32? || k.F32? then 4 else 8)
      && e[0] == 0x04 + Place(k)
      && forall j :: 0 <= j < w ==> e[1 + j] == n / Pow256(j) % 256
    ensures k.U16? || k.S16? ==> n < 0x1_0000 ==> Encode(Num(k, n)) == [0x04 + Place(k), n % 256, n / 256]
  {
    forall j: nat | j < Width(k) ensures LE(n, Width(k))[j] == n / Pow256(j) % 256 { LEDigit(n, Width(k), j); }
    LEOctets(n);
  }

  lemma LengthOctets(n: nat)
    ensures n <= 0xff ==> LengthField(n) == [0x04, n]
    ensures 0x100 <= n <= 0xffff ==> LengthField(n) == [0x06, n % 256, n / 256]
    ensures 0x1_0000 <= n <= 0xffff_ffff ==>
      LengthField(n) == [0x08, n % 256, n / 0x100 % 256, n / 0x1_0000 % 256, n / 0x100_0000]
  {
    LEOctets(n);
  }

  /** A text is one octet when it is empty; else its code, its length in the narrowest of Uint8, Uint16 and
      Uint32 that holds it, and its octets. */
  lemma TextOctets(c: seq<Byte>)
    ensures c == [] ==> Encode(Str(c)) == [0x0f]
    ensures 1 <= |c| <= 0xff ==> Encode(Str(c)) == [0x10, 0x04, |c|] + c
    ensures 0x100 <= |c| <= 0xffff ==> Encode(Str(c)) == [0x10, 0x06, |c| % 256, |c| / 256] + c
    ensures 0x1_0000 <= |c| <= 0xffff_ffff ==>
      Encode(Str(c)) == [0x10, 0x08, |c| % 256, |c| / 0x100 % 256, |c| / 0x1_0000 % 256, |c| / 0x100_0000] + c
  {
    LengthOctets(|c|);
  }

  /** Ahead of time a text is counted with two octets of code and length, though it needs one when it is
      empty; else as it is written. */
  lemma TextSize(c: seq<Byte>)
    ensures Size(Str(c))
      == |c| + (if |c| <= 0xff then 3 else if |c| <= 0xffff then 4 else if |c| <= 0xffff_ffff then 6 else 10)
    ensures EmptyStrings(Str(c)) == if c == [] then 1 else 0
    ensures c != [] ==> Size(Str(c)) == |Encode(Str(c))|
  {
    SizeLaw(Str(c));
  }

  /** A boolean is one octet; an array is its code, the count in eight octets, the elements and the
      terminator; a struct is its code, its pairs of a text and a value, and the terminator. */
  lemma OtherOctets(b: bool, es: seq<Value>, fs: seq<Field>)
    ensures Encode(Bool(b)) == [if b then 0x03 else 0x02]
    ensures var e := Encode(Array(es));
      && |e| == 10 + |EncodeAll(es)| && e[0] == 0x0e && e[|e| - 1] == 0x01
      && (forall j :: 0 <= j < 8 ==> e[1 + j] == |es| / Pow256(j) % 256) && e[9..|e| - 1] == EncodeAll(es)
    ensures var e := Encode(Struct(fs));
      |e| == 2 + |EncodeFields(fs)| && e[0] == 0x11 && e[|e| - 1] == 0x01 && e[1..|e| - 1] == EncodeFields(fs)
    ensures es != [] ==> EncodeAll(es) == Encode(es[0]) + EncodeAll(es[1..])
    ensures fs != [] ==> EncodeFields(fs) == Encode(Str(fs[0].key)) + Encode(fs[0].val) + EncodeFields(fs[1..])
  {
    forall j: nat | j < 8 ensures LE(|es|, 8)[j] == |es| / Pow256(j) % 256 { LEDigit(|es|, 8, j); }
  }

  // ---- Messages -------------------------------------------------------------------

  /** The flags of the protocol are the three lowest bits: reply, exception, callback. */
  lemma FlagBits(flags: nat)
    ensures IsReply(flags) <==> flags % 2 == 1
    ensures IsException(flags) <==> flags / 2 % 2 == 1
    ensures IsCallback(flags) <==> flags / 4 % 2 == 1
    ensures IsReply(FLAG_REPLY) && !IsCallback(FLAG_REPLY) && IsCallback(FLAG_CALLBACK) && !IsReply(FLAG_CALLBACK)
  {
  }

  /** At `i` stand the `w` octets of `n`, the least significant one first. */
  ghost predicate Digits(s: seq<Byte>, i: nat, n: nat, w: nat) {
    i + w <= |s| && forall j :: 0 <= j < w ==> s[i + j] == n / Pow256(j) % 256
  }

  lemma DigitsAt(s: seq<Byte>, i: nat, n: nat, w: nat)
    requires At(s, i, LE(n, w))
    ensures Digits(s, i, n, w)
  {
    forall j: nat | j < w ensures s[i + j] == n / Pow256(j) % 256 { LEDigit(n, w, j); }
  }

  lemma PrefixOctets(length: nat, s: seq<Byte>)
    requires At(s, 0, Prefix(length))
    ensures 8 <= |s| && s[..4] == [0x4e, 0x47, 0x52, 0x44] && Digits(s, 4, length, 4)
  {
    AtConcat(s, 0, LE(SIGNATURE, 4), LE(length, 4));
    AtSlice(s, 0, LE(SIGNATURE, 4));
    DigitsAt(s, 4, length, 4);
    LEOctets(SIGNATURE);
  }

  lemma Parts(p: seq<Byte>, h: seq<Byte>, y: seq<Byte>, s: seq<Byte>)
    requires s == p + (h + y + [NONE])
    ensures At(s, 0, p) && At(s, |p|, h) && |s| == |p| + |h| + |y| + 1 && s[|s| - 1] == NONE
    ensures s[|p| + |h|..|s| - 1] == y
  {
    var x := h + y + [NONE];
    assert x[|h|..|x| - 1] == y;
    assert s[|p|..] == x && s[|p| + |h|..|s| - 1] == x[|h|..|x| - 1];
    forall k | 0 <= k < |h| ensures s[|p| + k] == h[k] { assert x[k] == h[k] && s[|p| + k] == x[k]; }
  }

  lemma ReplyOctets(id: nat, e: seq<Byte>, s: seq<Byte>, i: nat)
    requires i < |s| && s[i..|s| - 1] == LE(id, 8) + e
    ensures i + 8 < |s| && Digits(s, i, id, 8) && s[i + 8..|s| - 1] == e
  {
    AtSlice(s, i, LE(id, 8) + e);
    AtConcat(s, i, LE(id, 8), e);
    AtSlice(s, i + 8, e);
    DigitsAt(s, i, id, 8);
  }

  lemma ContentOctets(m: Message, s: seq<Byte>, y: seq<Byte>)
    requires 26 <= |s| && s[25..|s| - 1] == y == Payload(m)
    ensures m.flags % 2 == 1 ==> 33 < |s| && Digits(s, 25, m.responseId, 8) && s[33..|s| - 1] == Encode(m.response)
    ensures m.flags % 2 == 0 ==>
      y == (if m.flags / 4 % 2 == 1 then Encode(Str(m.callbackName)) else []) + EncodeAll(m.values)
  {
    FlagBits(m.flags);
    if IsReply(m.flags) {
      ReplyOctets(m.responseId, Encode(m.response), s, 25);
    } else {
      assert [] + EncodeAll(m.values) == EncodeAll(m.values);
    }
  }

  /**
   * A message as it is sent: the signature, the length of the rest, the version, method ID, flags and
   * message ID; for a reply the ID that it replies to and the result, for a callback the name and the
   * values, else the values; and the terminator.
   */
  lemma MessageOctets(m: Message, length: nat, s: seq<Byte>)
    requires s == Prefix(length) + Body(m)
    ensures 26 <= |s| && s[..4] == [0x4e, 0x47, 0x52, 0x44] && Digits(s, 4, length, 4) && s[8] == 0
    ensures Digits(s, 9, m.methodId, 4) && Digits(s, 13, m.flags, 4) && Digits(s, 17, m.messageId, 8)
    ensures s[|s| - 1] == 0x01
    ensures m.flags % 2 == 1 ==> 33 < |s| && Digits(s, 25, m.responseId, 8) && s[33..|s| - 1] == Encode(m.response)
    ensures m.flags % 2 == 0 ==>
      s[25..|s| - 1] == (if m.flags / 4 % 2 == 1 then Encode(Str(m.callbackName)) else []) + EncodeAll(m.values)
  {
    assert |Prefix(length)| == 8 && |Header(m)| == 17;
    Parts(Prefix(length), Header(m), Payload(m), s);
    PrefixOctets(length, s);
    HeaderOctets(m, s);
    ContentOctets(m, s, s[25..|s| - 1]);
  }

  lemma HeaderOctets(m: Message, s: seq<Byte>)
    requires At(s, 8, Header(m))
    ensures 25 <= |s| && s[8] == 0
    ensures Digits(s, 9, m.methodId, 4) && Digits(s, 13, m.flags, 4) && Digits(s, 17, m.messageId, 8)
  {
    AtConcat3(s, 8, [0] + LE(m.methodId, 4), LE(m.flags, 4), LE(m.messageId, 8));
    AtConcat(s, 8, [0], LE(m.methodId, 4));
    AtFirst(s, 8, [0]);
    DigitsAt(s, 9, m.methodId, 4);
    DigitsAt(s, 13, m.flags, 4);
    DigitsAt(s, 17, m.messageId, 8);
  }

  /** A new message is sent under the ID that it is given, and a reply under the one it has. */
  lemma NumberedIs(m: Message, id: nat)
    ensures Numbered(m, id) == m.(messageId := if m.flags % 2 == 1 then m.messageId else id)
  {
    FlagBits(m.flags);
  }

  // ---- The method table -----------------------------------------------------------

  /** A record of the table: METHOD, the ID, and name and parameters after their lengths, which are cut to
      one octet; and the return type. */
  lemma RecordOctets(m: Method, s: seq<Byte>)
    requires s == Record(m)
    ensures var j := 11 + |m.name|; var n := |m.params| % 256;
      && |s| == j + 2 + n
      && s[..6] == [0x4d, 0x45, 0x54, 0x48, 0x4f, 0x44] && Digits(s, 6, m.id, 4)
      && s[10] == |m.name| % 256 && s[11..j] == m.name && s[j] == n && s[j + 1..j + 1 + n] == m.params[..n]
      && s[j + 1 + n] == m.ret
  {
    RecordParts(m);
    Numbered4(METHOD, m.id, SignaturePart(m), s);
    SignatureLayout(m, s, 10);
  }

  /** A word, a number of four octets, and the rest. */
  lemma Numbered4(word: seq<Byte>, n: nat, rest: seq<Byte>, s: seq<Byte>)
    requires s == word + LE(n, 4) + rest
    ensures |s| == |word| + 4 + |rest| && s[..|word|] == word && Digits(s, |word|, n, 4)
    ensures At(s, |word| + 4, rest) && s[|word| + 4..] == rest
  {
    AtWhole(s);
    AtConcat3(s, 0, word, LE(n, 4), rest);
    AtSlice(s, 0, word);
    DigitsAt(s, |word|, n, 4);
  }

  /** The table: METHODS, the number of methods, and their records one after the other. */
  lemma TableOctets(ms: seq<Method>, s: seq<Byte>)
    requires s == Table(ms)
    ensures 11 <= |s| && s[..7] == [0x4d, 0x45, 0x54, 0x48, 0x4f, 0x44, 0x53] && Digits(s, 7, |ms|, 4)
    ensures s[11..] == Records(ms) && (ms != [] ==> Records(ms) == Record(ms[0]) + Records(ms[1..]))
  {
    Numbered4(METHODS, |ms|, Records(ms), s);
  }
}
