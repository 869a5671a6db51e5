// Bytes, big-endian numbers of a fixed width, and exclusive or.

module Bytes {
  import opened Arithmetic

  type byte = x: int | 0 <= x < 256

  const TWO32: nat := 0x1_0000_0000
  const TWO63: int := 0x8000_0000_0000_0000
  const TWO64: nat := 0x1_0000_0000_0000_0000

  /** 256 to the power w. */
  function Pow256(w: nat): (p: nat)
    ensures p > 0
  {
    if w == 0 then 1 else 256 * Pow256(w - 1)
  }

  lemma Pow256Values()
    ensures Pow256(2) == 0x1_0000 && Pow256(4) == 0x1_0000_0000 && Pow256(8) == 0x1_0000_0000_0000_0000
  {
    assert Pow256(6) == 0x1_0000_0000_0000;
  }

  /** The w low-order bytes of n, most significant first. */
  function ToBE(n: nat, w: nat): (s: seq<byte>)
    ensures |s| == w
  {
    if w == 0 then [] else ToBE(n / 256, w - 1) + [n % 256]
  }

  function FromBE(s: seq<byte>): nat {
    if s == [] then 0 else FromBE(s[..|s| - 1]) * 256 + s[|s| - 1]
  }

  lemma {:induction false} FromToBE(n: nat, w: nat)
    requires n < Pow256(w)
    ensures FromBE(ToBE(n, w)) == n
  {
    if w > 0 {
      FromToBE(n / 256, w - 1);
      assert ToBE(n, w)[..w - 1] == ToBE(n / 256, w - 1);
    }
  }

  lemma {:induction false} ToFromBE(s: seq<byte>)
    ensures FromBE(s) < Pow256(|s|) && ToBE(FromBE(s), |s|) == s
  {
    if s != [] {
      ToFromBE(s[..|s| - 1]);
      var n, d := FromBE(s[..|s| - 1]), s[|s| - 1];
      assert FromBE(s) / 256 == n && FromBE(s) % 256 == d;
      assert s == s[..|s| - 1] + [d];
    }
  }

  /** Exclusive or of the low n bits. */
  function XorBits(a: nat, b: nat, n: nat): nat {
    if n == 0 then 0 else (a % 2 + b % 2) % 2 + 2 * XorBits(a / 2, b / 2, n - 1)
  }

  lemma {:induction false} XorBound(a: nat, b: nat, n: nat, p: nat)
    requires p == Pow2(n)
    ensures XorBits(a, b, n) < p
  {
    if n > 0 {
      XorBound(a / 2, b / 2, n - 1, Pow2(n - 1));
    }
  }

  function Pow2(n: nat): (p: nat)
    ensures p > 0
  {
    if n == 0 then 1 else 2 * Pow2(n - 1)
  }

  function Xor(a: byte, b: byte): byte {
    XorBound(a, b, 8, 256);
    XorBits(a, b, 8)
  }

  lemma {:induction false} XorBitsTwice(a: nat, b: nat, n: nat)
    requires a < Pow2(n)
    ensures XorBits(XorBits(a, b, n), b, n) == a
  {
    if n > 0 {
      var y, z, p, q := a / 2, b / 2, a % 2, b % 2;
      XorBitsTwice(y, z, n - 1);
      hide XorBits;
      XorStep(y, p, z, q, n);
      XorStep(XorBits(y, z, n - 1), (p + q) % 2, z, q, n);
      assert a == 2 * y + p && b == 2 * z + q;
    }
  }

  lemma XorStep(y: nat, p: nat, z: nat, q: nat, n: nat)
    requires p < 2 && q < 2 && n > 0
    ensures XorBits(2 * y + p, 2 * z + q, n) == (p + q) % 2 + 2 * XorBits(y, z, n - 1)
  {
    Binary(p, y);
    Binary(q, z);
  }

  lemma Binary(d: nat, y: nat)
    requires d < 2
    ensures (2 * y + d) / 2 == y && (2 * y + d) % 2 == d
  {
  }

  /** Masking twice with the same byte is the identity. */
  lemma XorTwice(a: byte, b: byte)
    ensures Xor(Xor(a, b), b) == a
  {
    XorBitsTwice(a, b, 8);
  }

  /** The first byte of a number counts most: the value of a sequence of bytes,
      from the front. */
  lemma {:induction false} BigEndian(d: byte, s: seq<byte>)
    ensures FromBE([d] + s) == d * Pow256(|s|) + FromBE(s)
  {
    if s == [] {
      assert [d][..0] == [] && [d] + s == [d];
    } else {
      var n := |s| - 1;
      var p, rest, last := Pow256(n), FromBE(s[..n]), s[n];
      BigEndian(d, s[..n]);
      assert ([d] + s)[..n + 1] == [d] + s[..n];
      assert d * (256 * p) == 256 * (d * p);
    }
  }

  /** Bit k of an exclusive or is set if and only if bit k of exactly one of the
      two bytes is. */
  lemma XorBit(a: byte, b: byte, k: nat)
    requires k < 8
    ensures Xor(a, b) / Pow2(k) % 2 == 1 <==> a / Pow2(k) % 2 != b / Pow2(k) % 2
  {
    XorBitsAt(a, b, 8, k);
    OneOfTwo(a / Pow2(k) % 2, b / Pow2(k) % 2);
    hide XorBits, Pow2;
  }

  lemma OneOfTwo(p: nat, q: nat)
    requires p < 2 && q < 2
    ensures (p + q) % 2 == 1 <==> p != q
  {
  }

  lemma {:induction false} XorBitsAt(a: nat, b: nat, n: nat, k: nat)
    requires k < n
    ensures XorBits(a, b, n) / Pow2(k) % 2 == (a / Pow2(k) % 2 + b / Pow2(k) % 2) % 2
    decreases k
  {
    var x := XorBits(a, b, n);
    Binary((a % 2 + b % 2) % 2, XorBits(a / 2, b / 2, n - 1));
    if k > 0 {
      XorBitsAt(a / 2, b / 2, n - 1, k - 1);
      HalfFirst(x, k);
      HalfFirst(a, k);
      HalfFirst(b, k);
    }
  }

  lemma HalfFirst(a: nat, k: nat)
    requires k > 0
    ensures a / Pow2(k) == a / 2 / Pow2(k - 1)
  {
    var p := Pow2(k - 1);
    var q, r := a / 2 / p, a / 2 % p;
    assert a / 2 == q * p + r;
    assert a == (2 * p) * q + (2 * r + a % 2);
    DivisionUnique(a, q, 2 * r + a % 2, 2 * p);
  }
}
