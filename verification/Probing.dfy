// The probe sequence of the hash table (server/table.c): home slot h, then
// h+1, h+1+2, h+1+2+3, ... modulo a capacity that is a power of two.

module Probing {
  import opened Arithmetic


  /** The n-th triangular number, 0 + 1 + ... + n. */
  function Tri(n: nat): nat {
    if n == 0 then 0 else Tri(n - 1) + n
  }

  predicate IsPow2(c: nat) {
    c == 1 || (c > 1 && c % 2 == 0 && IsPow2(c / 2))
  }

  lemma Pow2Initial()
    ensures IsPow2(32)
  {
    assert IsPow2(4) && IsPow2(16);
  }

  lemma Pow2Double(c: nat)
    requires IsPow2(c)
    ensures IsPow2(2 * c)
  {
  }

  /** `x & (cap - 1)`, which for a power of two is the remainder. */
  function Mask(x: nat, cap: nat): (i: nat)
    requires cap > 0
    ensures i < cap
  {
    x % cap
  }

  /** The slot examined after k collisions by an element with this hash. */
  function Probe(hash: nat, k: nat, cap: nat): (i: nat)
    requires cap > 0
    ensures i < cap
  {
    (hash + Tri(k)) % cap
  }

  lemma AddMod(a: nat, b: nat, c: nat)
    requires c > 0
    ensures (a % c + b) % c == (a + b) % c
  {
    var s := a % c + b;
    assert a == c * (a / c) + a % c;
    assert s == c * (s / c) + s % c;
    assert a + b == c * (a / c + s / c) + s % c;
    DivisionUnique(a + b, a / c + s / c, s % c, c);
  }

  /** The incremental step of the loops computes the closed form. */
  lemma ProbeStep(hash: nat, k: nat, cap: nat)
    requires cap > 0
    ensures Probe(hash, 0, cap) == Mask(hash, cap)
    ensures Probe(hash, k + 1, cap) == Mask(Probe(hash, k, cap) + (k + 1), cap)
  {
    AddMod(hash + Tri(k), k + 1, cap);
  }

  lemma {:induction false} TriClosed(n: nat)
    ensures 2 * Tri(n) == n * (n + 1)
  {
    if n > 0 {
      TriClosed(n - 1);
    }
  }

  /** Multiplication behind a name, so that proofs can hide it. */
  function Times(x: nat, y: nat): nat {
    x * y
  }

  /** An odd factor contributes nothing to divisibility by a power of two. */
  lemma {:induction false} OddFactor(x: nat, y: nat, c: nat, q: nat)
    requires IsPow2(c) && x % 2 == 1 && Times(x, y) == Times(c, q)
    ensures y % c == 0
  {
    hide Times;
    if c > 1 {
      HalveProducts(x, y, c, q);
      OddFactor(x, y / 2, c / 2, q);
      DoubleMultiple(y / 2, c / 2);
    }
  }

  lemma HalveProducts(x: nat, y: nat, c: nat, q: nat)
    requires c % 2 == 0 && x % 2 == 1 && Times(x, y) == Times(c, q)
    ensures y % 2 == 0 && Times(x, y / 2) == Times(c / 2, q)
  {
    var d := c / 2;
    assert c * q == 2 * (d * q) by {
      assert c == 2 * d;
    }
    OddTimes(x, y);
    var z := y / 2;
    assert x * y == 2 * (x * z) by {
      assert y == 2 * z;
    }
  }

  lemma DoubleMultiple(y: nat, c: nat)
    requires c > 0 && y % c == 0
    ensures (2 * y) % (2 * c) == 0
  {
    var q := y / c;
    assert y == c * q;
    assert 2 * y == (2 * c) * q;
    DivisionUnique(2 * y, q, 0, 2 * c);
  }

  lemma OddTimes(x: nat, y: nat)
    requires x % 2 == 1 && Times(x, y) % 2 == 0
    ensures y % 2 == 0
  {
    if y % 2 == 1 {
      OddProduct(x / 2, y / 2);
    }
  }

  lemma OddProduct(a: nat, b: nat)
    ensures (2 * a + 1) * (2 * b + 1) % 2 == 1
  {
    assert (2 * a + 1) * (2 * b + 1) == 2 * (2 * (a * b) + a + b) + 1;
  }

  lemma SmallMultiple(y: nat, c: nat)
    requires 0 < y < c
    ensures y % c != 0
  {
  }

  /** Of two factors of opposite parity, the even one carries the power of
      two; so it cannot be small. */
  lemma NotMultiple(d: nat, s: nat, c: nat, q: nat)
    requires IsPow2(c) && 0 < d < c && 0 < s < 2 * c && (d + s) % 2 == 1
    ensures Times(d, s) != Times(2 * c, q)
  {
    hide Times;
    if Times(d, s) == Times(2 * c, q) {
      if d % 2 == 1 {
        Pow2Double(c);
        OddFactor(d, s, 2 * c, q);
        SmallMultiple(s, 2 * c);
      } else {
        Regroup(d, s, c, q);
        OddFactor(s, d, c, 2 * q);
        SmallMultiple(d, c);
      }
    }
  }

  lemma Regroup(d: nat, s: nat, c: nat, q: nat)
    ensures Times(s, d) == Times(d, s) && Times(c, 2 * q) == Times(2 * c, q) == 2 * Times(c, q)
  {
  }

  /** Triangular numbers below a power of two are pairwise incongruent. */
  lemma TriDistinct(a: nat, b: nat, c: nat, q: nat)
    requires IsPow2(c) && a < b < c
    ensures Tri(b) - Tri(a) != Times(c, q)
  {
    hide Times, Tri;
    TriFactors(a, b);
    NotMultiple(b - a, a + b + 1, c, q);
    Regroup(0, 0, c, q);
  }

  lemma TriFactors(a: nat, b: nat)
    requires a <= b
    ensures Times(b - a, a + b + 1) == 2 * (Tri(b) - Tri(a))
  {
    TriClosed(a);
    TriClosed(b);
    hide Tri;
    assert (b - a) * (a + b + 1) == b * (b + 1) - a * (a + 1);
  }

  lemma {:induction false} TriMonotone(a: nat, b: nat)
    requires a <= b
    ensures Tri(a) <= Tri(b)
  {
    if a < b {
      TriMonotone(a, b - 1);
    }
  }

  /** Congruent numbers differ by a multiple. */
  lemma Congruent(x: nat, y: nat, c: nat) returns (q: nat)
    requires c > 0 && x <= y && x % c == y % c
    ensures y - x == Times(c, q)
  {
    var a, b := x / c, y / c;
    assert x == c * a + x % c && y == c * b + y % c;
    if b < a {
      MulGap(c, b, a);
    }
    q := b - a;
    assert c * b - c * a == c * (b - a);
  }

  /** The first cap probes never repeat a slot. */
  lemma ProbeInjective(hash: nat, a: nat, b: nat, cap: nat)
    requires IsPow2(cap) && a < cap && b < cap && a != b
    ensures Probe(hash, a, cap) != Probe(hash, b, cap)
  {
    if a < b {
      ProbeDistinct(hash, a, b, cap);
    } else {
      ProbeDistinct(hash, b, a, cap);
    }
  }

  lemma ProbeDistinct(hash: nat, a: nat, b: nat, cap: nat)
    requires IsPow2(cap) && a < b < cap
    ensures Probe(hash, a, cap) != Probe(hash, b, cap)
  {
    hide Times, Tri, IsPow2;
    TriMonotone(a, b);
    if Probe(hash, a, cap) == Probe(hash, b, cap) {
      var q := Congruent(hash + Tri(a), hash + Tri(b), cap);
      TriDistinct(a, b, cap, q);
    }
  }

  lemma ProbeHome(hash: nat, m: nat, cap: nat)
    requires IsPow2(cap) && m < cap
    ensures Probe(hash, m, cap) == Mask(hash, cap) <==> m == 0
  {
    if m > 0 {
      ProbeInjective(hash, 0, m, cap);
    }
  }

  /** The set of slots met by the first n probes. */
  ghost function Visited(hash: nat, n: nat, cap: nat): set<nat>
    requires cap > 0
  {
    set k | 0 <= k < n :: Probe(hash, k, cap)
  }

  ghost function Below(n: nat): (s: set<nat>)
    ensures forall i: nat :: i in s <==> i < n
  {
    if n == 0 then {} else Below(n - 1) + {n - 1}
  }

  lemma {:induction false} BelowSize(n: nat)
    ensures |Below(n)| == n
  {
    if n > 0 {
      BelowSize(n - 1);
    }
  }

  lemma {:induction false} VisitedSize(hash: nat, n: nat, cap: nat)
    requires IsPow2(cap) && n <= cap
    ensures |Visited(hash, n, cap)| == n
  {
    if n > 0 {
      VisitedSize(hash, n - 1, cap);
      var p := Probe(hash, n - 1, cap);
      forall k | 0 <= k < n - 1 ensures Probe(hash, k, cap) != p {
        ProbeInjective(hash, k, n - 1, cap);
      }
      assert Visited(hash, n, cap) == Visited(hash, n - 1, cap) + {p};
    }
  }

  lemma SubsetSameSize(a: set<nat>, b: set<nat>)
    requires a <= b && |a| == |b|
    ensures a == b
  {
    assert b == a + (b - a);
    assert |b| == |a| + |b - a|;
  }

  /** The probe sequence is a permutation of the slots: each slot is met by
      exactly one of the first cap probes. */
  lemma ProbeCovers(hash: nat, i: nat, cap: nat) returns (k: nat)
    requires IsPow2(cap) && i < cap
    ensures k < cap && Probe(hash, k, cap) == i
    ensures forall j: nat | j < cap && Probe(hash, j, cap) == i :: j == k
  {
    VisitedSize(hash, cap, cap);
    BelowSize(cap);
    assert Visited(hash, cap, cap) <= Below(cap);
    SubsetSameSize(Visited(hash, cap, cap), Below(cap));
    assert i in Below(cap);
    k :| 0 <= k < cap && Probe(hash, k, cap) == i;
    forall j: nat | j < cap && Probe(hash, j, cap) == i ensures j == k {
      if j != k {
        ProbeInjective(hash, j, k, cap);
      }
    }
  }
}
