/** Bytes, slices that clip like Python's, and fixed-width integer codecs. */
module Bytes {

  type byte = b: int | 0 <= b < 256

  const U32 := 0x1_0000_0000

  function Min(a: int, b: int): int { if a <= b then a else b }

  /** Python's `s[a:b]` for non-negative bounds: clipped, never an error. */
  function Clip<T>(s: seq<T>, a: nat, b: nat): (r: seq<T>)
    requires a <= b
    ensures |r| == Min(b, |s|) - Min(a, |s|)
  {
    s[Min(a, |s|)..Min(b, |s|)]
  }

  function Zeros(n: nat): (z: seq<byte>)
    ensures |z| == n && forall i :: 0 <= i < n ==> z[i] == 0
  {
    seq(n, _ => 0)
  }

  function Pow256(width: nat): (p: nat)
    ensures p > 0
  {
    if width == 0 then 1 else 256 * Pow256(width - 1)
  }

  /** The low `width` bytes of `n`, least significant first (masking included). */
  function ToLE(n: int, width: nat): (s: seq<byte>)
    ensures |s| == width
    decreases width
  {
    if width == 0 then [] else [n % 256] + ToLE(n / 256, width - 1)
  }

  function FromLE(s: seq<byte>): nat {
    if s == [] then 0 else s[0] + 256 * FromLE(s[1..])
  }

  /** The low `width` bytes of `n`, most significant first. */
  function ToBE(n: int, width: nat): (s: seq<byte>)
    ensures |s| == width
    decreases width
  {
    if width == 0 then [] else ToBE(n / 256, width - 1) + [n % 256]
  }

  function FromBE(s: seq<byte>): nat {
    if s == [] then 0 else FromBE(s[..|s| - 1]) * 256 + s[|s| - 1]
  }

  lemma {:induction false} FromLEOfToLE(n: nat, width: nat)
    requires n < Pow256(width)
    ensures FromLE(ToLE(n, width)) == n
  {
    if width > 0 {
      FromLEOfToLE(n / 256, width - 1);
      assert ToLE(n, width)[1..] == ToLE(n / 256, width - 1);
    }
  }

  lemma {:induction false} ToLEOfFromLE(s: seq<byte>)
    ensures ToLE(FromLE(s), |s|) == s
    ensures FromLE(s) < Pow256(|s|)
  {
    if s != [] {
      ToLEOfFromLE(s[1..]);
      assert (s[0] + 256 * FromLE(s[1..])) / 256 == FromLE(s[1..]);
    }
  }

  lemma {:induction false} FromBEOfToBE(n: nat, width: nat)
    requires n < Pow256(width)
    ensures FromBE(ToBE(n, width)) == n
  {
    if width > 0 {
      FromBEOfToBE(n / 256, width - 1);
      assert ToBE(n, width)[..width - 1] == ToBE(n / 256, width - 1);
    }
  }

  lemma {:induction false} FromBEBound(s: seq<byte>)
    ensures FromBE(s) < Pow256(|s|)
  {
    if s != [] {
      FromBEBound(s[..|s| - 1]);
    }
  }

  // ----- byte order -----

  lemma QuotientIs(n: int, d: nat, q: int, r: int)
    requires d > 0 && n == d * q + r && 0 <= r < d
    ensures n / d == q
  {
    var e := n / d - q;
    assert d * e == r - n % d;
    assert e >= 1 ==> d * e >= d;
    assert e <= -1 ==> d * e + d <= 0;
  }

  lemma DivideTwice(n: int, p: nat)
    requires p > 0
    ensures n / 256 / p == n / (256 * p)
  {
    var m := n / 256;
    var q, r := m / p, m % p;
    assert m == p * q + r;
    assert 256 * (p * q) == 256 * p * q;
    QuotientIs(n, 256 * p, q, 256 * r + n % 256);
  }

  /** Little-endian means: byte `i` is the digit of weight 256 to the `i`. */
  lemma {:induction false} ToLEDigit(n: int, width: nat, i: nat)
    requires i < width
    ensures ToLE(n, width)[i] == n / Pow256(i) % 256
    decreases width
  {
    if i > 0 {
      ToLEDigit(n / 256, width - 1, i - 1);
      DivideTwice(n, Pow256(i - 1));
    }
  }

  /** Big-endian means: byte `i` is the digit of weight 256 to the number of bytes after it. */
  lemma {:induction false} ToBEDigit(n: int, width: nat, i: nat)
    requires i < width
    ensures ToBE(n, width)[i] == n / Pow256(width - 1 - i) % 256
    decreases width
  {
    if i < width - 1 {
      ToBEDigit(n / 256, width - 1, i);
      DivideTwice(n, Pow256(width - 2 - i));
    }
  }

  lemma ToLEDigits(n: int, width: nat)
    ensures forall i :: 0 <= i < width ==> ToLE(n, width)[i] == n / Pow256(i) % 256
  {
    forall i | 0 <= i < width
      ensures ToLE(n, width)[i] == n / Pow256(i) % 256
    {
      ToLEDigit(n, width, i);
    }
  }

  lemma ToBEDigits(n: int, width: nat)
    ensures forall i :: 0 <= i < width ==> ToBE(n, width)[i] == n / Pow256(width - 1 - i) % 256
  {
    forall i | 0 <= i < width
      ensures ToBE(n, width)[i] == n / Pow256(width - 1 - i) % 256
    {
      ToBEDigit(n, width, i);
    }
  }

  function Sum(s: seq<byte>): nat {
    if s == [] then 0 else Sum(s[..|s| - 1]) + s[|s| - 1]
  }

  lemma {:induction false} SumUpdate(s: seq<byte>, i: nat, v: byte)
    requires i < |s|
    ensures Sum(s[i := v]) == Sum(s) - s[i] + v
  {
    var t := s[i := v];
    if i == |s| - 1 {
      assert t[..|s| - 1] == s[..|s| - 1];
    } else {
      assert t[..|s| - 1] == s[..|s| - 1][i := v];
      SumUpdate(s[..|s| - 1], i, v);
    }
  }
}
