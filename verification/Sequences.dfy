// Facts about sequences that several modules use.

module Sequences {
  function Concat<T>(ss: seq<seq<T>>): seq<T> {
    if ss == [] then [] else ss[0] + Concat(ss[1..])
  }

  lemma {:induction false} ConcatAppend<T>(a: seq<seq<T>>, b: seq<seq<T>>)
    ensures Concat(a + b) == Concat(a) + Concat(b)
  {
    if a == [] {
      assert a + b == b;
    } else {
      assert (a + b)[1..] == a[1..] + b;
      ConcatAppend(a[1..], b);
    }
  }

  lemma Regroup<T>(a: seq<T>, b: seq<T>, c: seq<T>)
    ensures a + b + c == a + (b + c)
  {
  }

  /** A part of a prefix is that part of the whole. */
  lemma SlicePrefix<T>(s: seq<T>, n: nat, a: nat, b: nat)
    requires a <= b <= n <= |s|
    ensures s[..n][a..b] == s[a..b]
  {
  }

  /** The middle one of three pieces. */
  lemma SliceMiddle<T>(s: seq<T>, p: seq<T>, q: seq<T>, r: seq<T>)
    requires s == p + q + r
    ensures |s| == |p| + |q| + |r| && s[|p|..|p| + |q|] == q
  {
  }

  /** The number of whole parts within the first n elements. */
  lemma {:induction false} WholeParts<T>(parts: seq<seq<T>>, n: nat) returns (k: nat)
    requires n <= |Concat(parts)|
    ensures k <= |parts| && |Concat(parts[..k])| <= n
    ensures k < |parts| ==> n < |Concat(parts[..k])| + |parts[k]|
    decreases |parts|
  {
    if parts == [] || n < |parts[0]| {
      k := 0;
    } else {
      var j := WholeParts(parts[1..], n - |parts[0]|);
      k := j + 1;
      assert parts[..k][1..] == parts[1..][..j];
    }
  }

  /** The first n elements are k whole parts and a piece of the next. */
  lemma SplitAt<T>(parts: seq<seq<T>>, k: nat, n: nat)
    requires k <= |parts| && |Concat(parts[..k])| <= n <= |Concat(parts)|
    requires k < |parts| ==> n < |Concat(parts[..k])| + |parts[k]|
    ensures var m := |Concat(parts[..k])|;
            Concat(parts)[..n] == Concat(parts[..k]) + Concat(parts)[m..n] &&
            Concat(parts)[m..n] == if k < |parts| then parts[k][..n - m] else []
  {
    hide Concat;
    var m := |Concat(parts[..k])|;
    ConcatAppend(parts[..k], parts[k..]);
    assert parts == parts[..k] + parts[k..];
    ConcatHead(parts[k..]);
  }

  lemma ConcatHead<T>(parts: seq<seq<T>>)
    ensures Concat(parts) == if parts == [] then [] else parts[0] + Concat(parts[1..])
  {
  }

  /** No whole part is missing from the whole. */
  lemma PartsWhole<T>(parts: seq<seq<T>>, k: nat)
    requires k <= |parts|
    ensures k < |parts| ==> |Concat(parts)| >= |Concat(parts[..k])| + |parts[k]|
    ensures k == |parts| ==> Concat(parts[..k]) == Concat(parts)
  {
    hide Concat;
    ConcatAppend(parts[..k], parts[k..]);
    assert parts == parts[..k] + parts[k..];
    ConcatHead(parts[k..]);
  }
}
