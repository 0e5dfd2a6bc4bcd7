/** Octets, little-endian integers and "these bytes stand at this offset". */
module Bytes {

  type Byte = x: int | 0 <= x < 256

  function Pow256(w: nat): (p: nat)
    ensures p > 0
  {
    if w == 0 then 1 else 256 * Pow256(w - 1)
  }

  /** The low `w` octets of `n`, least significant first: what memcpy of an integer
      stores on the little-endian hosts the source assumes. */
  function LE(n: nat, w: nat): (s: seq<Byte>)
    ensures |s| == w
  {
    if w == 0 then [] else [n % 256] + LE(n / 256, w - 1)
  }

  function FromLE(s: seq<Byte>): (n: nat)
    ensures n < Pow256(|s|)
  {
    if s == [] then 0 else s[0] + 256 * FromLE(s[1..])
  }

  lemma {:induction false} LERoundTrip(n: nat, w: nat)
    requires n < Pow256(w)
    ensures FromLE(LE(n, w)) == n
  {
    if w == 0 {
    } else {
      LERoundTrip(n / 256, w - 1);
      assert LE(n, w)[1..] == LE(n / 256, w - 1);
    }
  }

  lemma {:induction false} FromLERoundTrip(s: seq<Byte>)
    ensures LE(FromLE(s), |s|) == s
  {
    if s == [] {
    } else {
      FromLEFirst(s);
      FromLERoundTrip(s[1..]);
    }
  }

  /** What is added to a multiple of `p` and is below `p` is left out by the division. */
  lemma DivideMultiple(p: nat, q: nat, r: nat)
    requires r < p
    ensures (p * q + r) / p == q
  {
    var d, m := (p * q + r) / p, (p * q + r) % p;
    assert p * q + r == p * d + m;
    if d < q { ProductAtLeast(p, q - d); } else if q < d { ProductAtLeast(p, d - q); }
  }

  lemma ProductAtLeast(p: nat, k: nat)
    requires 1 <= k
    ensures p * k >= p
  {
  }

  lemma DivideTwice(n: nat, p: nat)
    requires 0 < p
    ensures n / 256 / p == n / (256 * p)
  {
    var q, r := n / 256 / p, n / 256 % p;
    assert n / 256 == p * q + r;
    assert n == 256 * p * q + (256 * r + n % 256);
    DivideMultiple(256 * p, q, 256 * r + n % 256);
  }

  /** The octet at `k` is the digit of 256 to the `k`, the least significant one first. */
  lemma {:induction false} LEDigit(n: nat, w: nat, k: nat)
    requires k < w
    ensures LE(n, w)[k] == n / Pow256(k) % 256
  {
    if k == 0 {
      assert n / 1 == n;
    } else {
      LEDigit(n / 256, w - 1, k - 1);
      DivideTwice(n, Pow256(k - 1));
    }
  }

  lemma FromLEFirst(s: seq<Byte>)
    requires s != []
    ensures FromLE(s) / 256 == FromLE(s[1..]) && FromLE(s) % 256 == s[0]
  {
    DivideMultiple(256, FromLE(s[1..]), s[0]);
  }

  /** And each octet that is read counts at its place. */
  lemma {:induction false} FromLEDigit(s: seq<Byte>, k: nat)
    requires k < |s|
    ensures FromLE(s) / Pow256(k) % 256 == s[k]
  {
    FromLEFirst(s);
    if k == 0 {
      assert FromLE(s) / 1 == FromLE(s);
    } else {
      FromLEDigit(s[1..], k - 1);
      DivideTwice(FromLE(s), Pow256(k - 1));
    }
  }

  lemma Pow256Values()
    ensures Pow256(1) == 0x100 && Pow256(2) == 0x1_0000
    ensures Pow256(4) == 0x1_0000_0000 && Pow256(8) == 0x1_0000_0000_0000_0000
  {
    assert Pow256(3) == 0x100_0000;
    assert Pow256(5) == 0x100_0000_0000;
    assert Pow256(6) == 0x1_0000_0000_0000;
    assert Pow256(7) == 0x100_0000_0000_0000;
  }

  /** `e` stands in `s` at offset `i`. */
  ghost predicate At(s: seq<Byte>, i: nat, e: seq<Byte>) {
    i + |e| <= |s| && forall k :: 0 <= k < |e| ==> s[i + k] == e[k]
  }

  lemma AtSlice(s: seq<Byte>, i: nat, e: seq<Byte>)
    ensures At(s, i, e) <==> i + |e| <= |s| && s[i..i + |e|] == e
  {
    if i + |e| <= |s| && s[i..i + |e|] == e {
      forall k | 0 <= k < |e| ensures s[i + k] == e[k] {
        assert s[i + k] == s[i..i + |e|][k];
      }
    }
  }

  lemma AtConcat(s: seq<Byte>, i: nat, a: seq<Byte>, b: seq<Byte>)
    ensures At(s, i, a + b) <==> At(s, i, a) && At(s, i + |a|, b)
  {
    if At(s, i, a + b) {
      forall k | 0 <= k < |a| ensures s[i + k] == a[k] {
        assert (a + b)[k] == a[k];
      }
      forall k | 0 <= k < |b| ensures s[i + |a| + k] == b[k] {
        assert (a + b)[|a| + k] == b[k];
      }
    }
    if At(s, i, a) && At(s, i + |a|, b) {
      forall k | 0 <= k < |a + b| ensures s[i + k] == (a + b)[k] {
        if k >= |a| { assert s[i + |a| + (k - |a|)] == b[k - |a|]; }
      }
    }
  }

  lemma AtConcat3(s: seq<Byte>, i: nat, a: seq<Byte>, b: seq<Byte>, c: seq<Byte>)
    requires At(s, i, a + b + c)
    ensures At(s, i, a) && At(s, i + |a|, b) && At(s, i + |a| + |b|, c)
  {
    AtConcat(s, i, a + b, c);
    AtConcat(s, i, a, b);
  }

  lemma AtFirst(s: seq<Byte>, i: nat, e: seq<Byte>)
    requires At(s, i, e) && e != []
    ensures i < |s| && s[i] == e[0]
  {
    assert s[i + 0] == e[0];
  }

  lemma AtWhole(e: seq<Byte>)
    ensures At(e, 0, e)
  {
  }

  lemma ReadInteger(n: nat, w: nat, b: seq<Byte>, i: nat)
    requires n < Pow256(w) && At(b, i, LE(n, w))
    ensures i + w <= |b| && FromLE(b[i..i + w]) == n
  {
    AtSlice(b, i, LE(n, w));
    LERoundTrip(n, w);
  }

  /** Two splits of one octet string with the same first length are the same split. */
  lemma SplitSame(a: seq<Byte>, b: seq<Byte>, x: seq<Byte>, y: seq<Byte>)
    requires a + x == b + y && |a| == |b|
    ensures a == b && x == y
  {
    assert a == (a + x)[..|a|] == (b + y)[..|b|] == b;
    assert x == (a + x)[|a|..] == (b + y)[|b|..] == y;
  }

  lemma FirstSame(a: seq<Byte>, b: seq<Byte>, x: seq<Byte>, y: seq<Byte>)
    requires a + x == b + y && a != [] && b != []
    ensures a[0] == b[0]
  {
    assert a[0] == (a + x)[0] == (b + y)[0];
  }
}
