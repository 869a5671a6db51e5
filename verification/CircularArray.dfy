// Index arithmetic shared by the deque and the ring buffer.

module CircularArray {
  /** The items of a circular array from `begin`, `len` of them. */
  function Circular<T>(a: seq<T>, begin: nat, len: nat): (s: seq<T>)
    requires begin < |a| && len <= |a|
    ensures |s| == len
  {
    if begin + len <= |a| then a[begin..begin + len] else a[begin..] + a[..begin + len - |a|]
  }

  lemma CircularAt<T>(a: seq<T>, begin: nat, len: nat, k: nat)
    requires begin < |a| && k < len <= |a|
    ensures Circular(a, begin, len)[k] == a[if begin + k < |a| then begin + k else begin + k - |a|]
  {
  }

  lemma CircularPushL<T>(a: seq<T>, begin: nat, len: nat, x: T)
    requires begin < |a| && len < |a|
    ensures var b := if begin == 0 then |a| - 1 else begin - 1;
            Circular(a[b := x], b, len + 1) == [x] + Circular(a, begin, len)
  {
  }

  lemma CircularPushR<T>(a: seq<T>, begin: nat, len: nat, x: T)
    requires begin < |a| && len < |a|
    ensures var e := if begin + len < |a| then begin + len else begin + len - |a|;
            Circular(a[e := x], begin, len + 1) == Circular(a, begin, len) + [x]
  {
  }

  /** Items that reach the end of the array: when the array grows, the part
      from `begin` moves to the new end. */
  lemma CircularMove<T>(a: seq<T>, begin: nat, len: nat, b: seq<T>, nbegin: nat)
    requires begin < |a| <= |b| && len <= |a| <= begin + len && nbegin == begin + (|b| - |a|)
    requires forall j | 0 <= j < begin :: b[j] == a[j]
    requires forall j | nbegin <= j < |b| :: b[j] == a[j - (|b| - |a|)]
    ensures Circular(b, nbegin, len) == Circular(a, begin, len)
  {
  }

  lemma CircularPopL<T>(a: seq<T>, begin: nat, len: nat)
    requires begin < |a| && 0 < len <= |a|
    ensures Circular(a, begin, len)[0] == a[begin]
    ensures Circular(a, if begin + 1 == |a| then 0 else begin + 1, len - 1) == Circular(a, begin, len)[1..]
  {
  }

  /** Items that do not reach the end stay where they are. */
  lemma CircularStay<T>(a: seq<T>, begin: nat, len: nat, b: seq<T>)
    requires begin + len < |a| <= |b| && a == b[..|a|]
    ensures Circular(b, begin, len) == Circular(a, begin, len)
  {
  }

  function EndOf<T>(a: seq<T>, begin: nat, len: nat): nat {
    if begin + len < |a| then begin + len else begin + len - |a|
  }

  /** The array after writing x at position e, wrapping around at the end. */
  function Written<T>(a: seq<T>, e: nat, x: seq<T>): (b: seq<T>)
    requires e < |a| && |x| < |a|
    ensures |b| == |a|
  {
    var room := |a| - e;
    if room < |x| then x[room..] + a[|x| - room..e] + x[..room] else a[..e] + x + a[e + |x|..]
  }

  /** Overwriting a part that fits. */
  function Spliced<T>(a: seq<T>, at: nat, x: seq<T>): (b: seq<T>)
    requires at + |x| <= |a|
    ensures |b| == |a|
  {
    a[..at] + x + a[at + |x|..]
  }

  /** A write in one piece, or completed by the second of two partial copies. */
  lemma WrittenInPieces<T>(a: seq<T>, e: nat, x: seq<T>)
    requires e < |a| && |x| < |a|
    ensures var room := |a| - e;
            Written(a, e, x) == if room < |x| then Spliced(Spliced(a, e, x[..room]), 0, x[room..]) else Spliced(a, e, x)
  {
    var room := |a| - e;
    if room < |x| {
      assert Spliced(a, e, x[..room]) == a[..e] + x[..room];
    }
  }

  /** A block written after the items, in one piece or wrapped around. */
  lemma CircularWrite<T>(a: seq<T>, begin: nat, len: nat, x: seq<T>)
    requires begin < |a| && len + |x| < |a|
    ensures Circular(Written(a, EndOf(a, begin, len), x), begin, len + |x|) == Circular(a, begin, len) + x
  {
    hide Circular;
    var b := Written(a, EndOf(a, begin, len), x);
    forall k | 0 <= k < len + |x|
      ensures Circular(b, begin, len + |x|)[k] == (Circular(a, begin, len) + x)[k]
    {
      CircularAt(b, begin, len + |x|, k);
      if k < len {
        CircularAt(a, begin, len, k);
      }
    }
  }

  lemma CircularPrefix<T>(a: seq<T>, begin: nat, len: nat, n: nat)
    requires begin < |a| && n <= len <= |a|
    ensures Circular(a, begin, n) == Circular(a, begin, len)[..n]
  {
  }

  lemma CircularDrop<T>(a: seq<T>, begin: nat, len: nat, n: nat)
    requires begin < |a| && n <= len < |a|
    ensures var b := if begin + n >= |a| then begin + n - |a| else begin + n;
            Circular(a, b, len - n) == Circular(a, begin, len)[n..]
  {
  }
}
