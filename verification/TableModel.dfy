// Sequence-level view of the hash table: the slots, the bag of entries they
// hold, and the two reachability conditions - between operations, and in the
// middle of the in-place rehash.

module TableModel {
  import opened Probing

  /** An element as the table stores it, with its memoized hash. */
  datatype Entry<K, V> = Entry(hash: nat, key: K, val: V)

  /** ELEM_FREE, ELEM_REMOVED (a tombstone) or ELEM_OCCUPIED. */
  datatype Slot<K, V> = Free | Removed | Occupied(e: Entry<K, V>)

  // ---------------------------------------------------------------- contents

  ghost function One<K, V>(x: Slot<K, V>): multiset<Entry<K, V>> {
    if x.Occupied? then multiset{x.e} else multiset{}
  }

  /** The entries held by the occupied slots. */
  ghost function Bag<K, V>(s: seq<Slot<K, V>>): multiset<Entry<K, V>> {
    if |s| == 0 then multiset{} else Bag(s[..|s| - 1]) + One(s[|s| - 1])
  }

  lemma AddBoth<E>(a: multiset<E>, x: multiset<E>, b: multiset<E>, y: multiset<E>, n: multiset<E>)
    requires a + x == b + y
    ensures a + n + x == b + n + y
  {
    assert a + n + x == (a + x) + n;
    assert b + n + y == (b + y) + n;
  }

  lemma {:induction false} BagUpdate<K, V>(s: seq<Slot<K, V>>, i: nat, x: Slot<K, V>)
    requires i < |s|
    ensures Bag(s[i := x]) + One(s[i]) == Bag(s) + One(x)
  {
    var n := |s| - 1;
    var t := s[i := x];
    if i == n {
      assert t[..n] == s[..n];
    } else {
      assert t[..n] == s[..n][i := x] && t[n] == s[n];
      BagUpdate(s[..n], i, x);
      assert Bag(t) == Bag(t[..n]) + One(s[n]) && Bag(s) == Bag(s[..n]) + One(s[n]);
      hide Bag, One;
      AddBoth(Bag(t[..n]), One(s[i]), Bag(s[..n]), One(x), One(s[n]));
    }
  }

  /** The same, case by case. */
  lemma BagChange<K, V>(s: seq<Slot<K, V>>, i: nat, x: Slot<K, V>)
    requires i < |s|
    ensures !s[i].Occupied? && !x.Occupied? ==> Bag(s[i := x]) == Bag(s)
    ensures !s[i].Occupied? && x.Occupied? ==> Bag(s[i := x]) == Bag(s) + multiset{x.e}
    ensures s[i].Occupied? && !x.Occupied? ==> Bag(s[i := x]) + multiset{s[i].e} == Bag(s)
  {
    hide Bag;
    BagUpdate(s, i, x);
    assert Bag(s[i := x]) == Bag(s[i := x]) + multiset{};
    assert Bag(s) == Bag(s) + multiset{};
  }

  lemma {:induction false} BagHas<K, V>(s: seq<Slot<K, V>>, i: nat)
    requires i < |s| && s[i].Occupied?
    ensures s[i].e in Bag(s)
  {
    if i < |s| - 1 {
      BagHas(s[..|s| - 1], i);
    }
  }

  lemma {:induction false} BagSlot<K, V>(s: seq<Slot<K, V>>, e: Entry<K, V>) returns (i: nat)
    requires e in Bag(s)
    ensures i < |s| && s[i] == Occupied(e)
  {
    var n := |s| - 1;
    if e in One(s[n]) {
      i := n;
    } else {
      i := BagSlot(s[..n], e);
    }
  }

  /** Two slots with the same entry count twice. */
  lemma BagTwice<K, V>(s: seq<Slot<K, V>>, i: nat, j: nat)
    requires i < |s| && j < |s| && i != j && s[i].Occupied? && s[i] == s[j]
    ensures Bag(s)[s[i].e] >= 2
  {
    BagChange(s, i, Free);
    BagHas(s[i := Free], j);
    assert Bag(s) == Bag(s[i := Free]) + multiset{s[i].e};
  }

  lemma {:induction false} BagAppend<K, V>(s: seq<Slot<K, V>>, t: seq<Slot<K, V>>)
    requires forall i | 0 <= i < |t| :: !t[i].Occupied?
    ensures Bag(s + t) == Bag(s)
  {
    if |t| == 0 {
      assert s + t == s;
    } else {
      var n := |t| - 1;
      assert (s + t)[..|s + t| - 1] == s + t[..n];
      BagAppend(s, t[..n]);
    }
  }

  /** Number of FREE slots. */
  ghost function FreeCount<K, V>(s: seq<Slot<K, V>>): nat {
    if |s| == 0 then 0
    else FreeCount(s[..|s| - 1]) + if s[|s| - 1].Free? then 1 else 0
  }

  ghost function FreeBit<K, V>(x: Slot<K, V>): nat {
    if x.Free? then 1 else 0
  }

  lemma {:induction false} FreeUpdate<K, V>(s: seq<Slot<K, V>>, i: nat, x: Slot<K, V>)
    requires i < |s|
    ensures FreeCount(s[i := x]) + FreeBit(s[i]) == FreeCount(s) + FreeBit(x)
  {
    var n := |s| - 1;
    var t := s[i := x];
    if i == n {
      assert t[..n] == s[..n];
    } else {
      assert t[..n] == s[..n][i := x];
      FreeUpdate(s[..n], i, x);
    }
  }

  lemma {:induction false} SomeFree<K, V>(s: seq<Slot<K, V>>) returns (i: nat)
    requires FreeCount(s) > 0
    ensures i < |s| && s[i].Free?
  {
    var n := |s| - 1;
    if s[n].Free? {
      i := n;
    } else {
      i := SomeFree(s[..n]);
    }
  }

  /** The slots split into FREE ones, entries and tombstones. */
  lemma {:induction false} SlotCount<K, V>(s: seq<Slot<K, V>>)
    ensures FreeCount(s) + |Bag(s)| <= |s|
    ensures (forall i | 0 <= i < |s| :: !s[i].Removed?) ==> FreeCount(s) + |Bag(s)| == |s|
    ensures (forall i | 0 <= i < |s| :: s[i].Occupied?) ==> |Bag(s)| == |s|
  {
    if |s| > 0 {
      SlotCount(s[..|s| - 1]);
    }
  }

  lemma {:induction false} AllFree<K, V>(s: seq<Slot<K, V>>)
    requires forall i | 0 <= i < |s| :: s[i].Free?
    ensures Bag(s) == multiset{} && FreeCount(s) == |s|
  {
    if |s| > 0 {
      AllFree(s[..|s| - 1]);
    }
  }

  lemma EmptyTable<K, V>(s: seq<Slot<K, V>>)
    requires |s| > 0 && forall i | 0 <= i < |s| :: s[i].Free?
    ensures Bag(s) == multiset{} && FreeCount(s) == |s| && Reachable(s)
    ensures Strays(s, Below(|s|)) == {}
  {
    AllFree(s);
  }

  // ------------------------------------------------------- home slots

  /** Slots of P whose element is not in its home slot. */
  ghost function Strays<K, V>(s: seq<Slot<K, V>>, P: set<nat>): set<nat> {
    set i | i in P && i < |s| && s[i].Occupied? && Probe(s[i].e.hash, 0, |s|) != i
  }

  lemma StraysShrink<K, V>(s: seq<Slot<K, V>>, P: set<nat>, i: nat, x: Slot<K, V>)
    requires i < |s| && !x.Occupied?
    ensures Strays(s[i := x], P) == Strays(s, P) - {i}
    ensures |Strays(s[i := x], P)| == |Strays(s, P)| - (if i in Strays(s, P) then 1 else 0)
    ensures i in Strays(s, P) <==> i in P && s[i].Occupied? && Probe(s[i].e.hash, 0, |s|) != i
  {
    assert Strays(s[i := x], P) == Strays(s, P) - {i};
    if i !in Strays(s, P) {
      assert Strays(s, P) - {i} == Strays(s, P);
    }
  }

  lemma StraysPlace<K, V>(s: seq<Slot<K, V>>, P: set<nat>, i: nat, e: Entry<K, V>)
    requires i < |s| && !s[i].Occupied?
    ensures |Strays(s[i := Occupied(e)], P)| ==
            |Strays(s, P)| + (if i in P && Probe(e.hash, 0, |s|) != i then 1 else 0)
  {
    var t := s[i := Occupied(e)];
    if i in P && Probe(e.hash, 0, |s|) != i {
      assert Strays(t, P) == Strays(s, P) + {i};
    } else {
      assert Strays(t, P) == Strays(s, P);
    }
  }

  lemma StraysGrow<K, V>(s: seq<Slot<K, V>>, P: set<nat>, i: nat)
    requires i < |s|
    requires !s[i].Occupied? || Probe(s[i].e.hash, 0, |s|) == i
    ensures Strays(s, P + {i}) == Strays(s, P)
  {
  }

  // --------------------------------------------- reachability between calls

  /** Slot i is the k-th probe of hash, and no earlier probe is FREE. */
  ghost predicate Path<K, V>(s: seq<Slot<K, V>>, hash: nat, k: nat, i: nat) {
    k < |s| && Probe(hash, k, |s|) == i &&
    forall j | 0 <= j < k :: !s[Probe(hash, j, |s|)].Free?
  }

  /** Every element lies on its probe path, before any FREE slot. */
  ghost predicate Reachable<K, V>(s: seq<Slot<K, V>>) {
    forall i | 0 <= i < |s| && s[i].Occupied? :: exists k: nat :: Path(s, s[i].e.hash, k, i)
  }

  /** The stronger condition a rehash leaves behind: no tombstone, and every
      earlier probe slot of an element holds an element. */
  ghost predicate Tight<K, V>(s: seq<Slot<K, V>>) {
    forall i | 0 <= i < |s| ::
      !s[i].Removed? &&
      (s[i].Occupied? ==> exists k: nat :: TightPath(s, s[i].e.hash, k, i))
  }

  ghost predicate TightPath<K, V>(s: seq<Slot<K, V>>, hash: nat, k: nat, i: nat) {
    k < |s| && Probe(hash, k, |s|) == i &&
    forall j | 0 <= j < k :: s[Probe(hash, j, |s|)].Occupied?
  }

  lemma TightReachable<K, V>(s: seq<Slot<K, V>>)
    requires Tight(s)
    ensures Reachable(s)
  {
    forall i | 0 <= i < |s| && s[i].Occupied? ensures exists k: nat :: Path(s, s[i].e.hash, k, i) {
      var k: nat :| TightPath(s, s[i].e.hash, k, i);
      assert Path(s, s[i].e.hash, k, i);
    }
  }

  // ------------------------------------------------ reachability mid-rehash

  /** A processed slot that holds an element, or a hole: a slot whose element
      some active call of relocate has lifted. */
  ghost predicate Covered<K, V>(s: seq<Slot<K, V>>, P: set<nat>, H: set<nat>, i: nat)
    requires i < |s|
  {
    i in P && (s[i].Occupied? || i in H)
  }

  ghost predicate SettledPath<K, V>(s: seq<Slot<K, V>>, P: set<nat>, H: set<nat>, hash: nat, k: nat, i: nat) {
    k < |s| && Probe(hash, k, |s|) == i &&
    forall j | 0 <= j < k :: Covered(s, P, H, Probe(hash, j, |s|))
  }

  ghost predicate HasPath<K, V>(s: seq<Slot<K, V>>, P: set<nat>, H: set<nat>, hash: nat, i: nat) {
    exists k: nat :: SettledPath(s, P, H, hash, k, i)
  }

  /** P is the set of slots relocate has finished on, H the holes among them:
      the elements in P depend on covered slots only. */
  ghost predicate Settled<K, V>(s: seq<Slot<K, V>>, P: set<nat>, H: set<nat>) {
    H <= P &&
    (forall i | i in H :: i < |s| && s[i].Free?) &&
    forall i | i in P ::
      i < |s| && !s[i].Removed? &&
      (s[i].Occupied? ==> HasPath(s, P, H, s[i].e.hash, i))
  }


  /** Nothing a settled element depends on is lost. */
  ghost predicate Keeps<K, V>(s: seq<Slot<K, V>>, P: set<nat>, H: set<nat>,
                              t: seq<Slot<K, V>>, Q: set<nat>, G: set<nat>) {
    |s| == |t| && P <= Q &&
    forall i | 0 <= i < |s| && Covered(s, P, H, i) :: Covered(t, Q, G, i)
  }

  lemma KeepsPath<K, V>(s: seq<Slot<K, V>>, P: set<nat>, H: set<nat>,
                        t: seq<Slot<K, V>>, Q: set<nat>, G: set<nat>, hash: nat, k: nat, i: nat)
    requires Keeps(s, P, H, t, Q, G) && SettledPath(s, P, H, hash, k, i)
    ensures SettledPath(t, Q, G, hash, k, i)
  {
  }

  /** A slot with no element may join the processed ones. */
  lemma SettledAddEmpty<K, V>(s: seq<Slot<K, V>>, P: set<nat>, H: set<nat>, i: nat)
    requires Settled(s, P, H) && i < |s| && s[i].Free?
    ensures Settled(s, P + {i}, H) && Keeps(s, P, H, s, P + {i}, H)
  {
    forall j | j in P + {i} && s[j].Occupied?
      ensures exists k: nat :: SettledPath(s, P + {i}, H, s[j].e.hash, k, j)
    {
      var k: nat :| SettledPath(s, P, H, s[j].e.hash, k, j);
      KeepsPath(s, P, H, s, P + {i}, H, s[j].e.hash, k, j);
    }
  }

  /** Clearing a slot with no element. */
  lemma SettledClear<K, V>(s: seq<Slot<K, V>>, P: set<nat>, H: set<nat>, i: nat)
    requires Settled(s, P, H) && i < |s| && !s[i].Occupied?
    ensures Settled(s[i := Free], P, H) && Keeps(s, P, H, s[i := Free], P, H)
  {
    var t := s[i := Free];
    forall j | j in P && t[j].Occupied?
      ensures exists k: nat :: SettledPath(t, P, H, t[j].e.hash, k, j)
    {
      var k: nat :| SettledPath(s, P, H, s[j].e.hash, k, j);
      KeepsPath(s, P, H, t, P, H, s[j].e.hash, k, j);
    }
  }

  /** So may an element in its home slot. */
  lemma SettledAddHome<K, V>(s: seq<Slot<K, V>>, P: set<nat>, H: set<nat>, i: nat)
    requires Settled(s, P, H) && i < |s| && s[i].Occupied? && Probe(s[i].e.hash, 0, |s|) == i
    ensures Settled(s, P + {i}, H) && Keeps(s, P, H, s, P + {i}, H)
  {
    forall j | j in P + {i} && s[j].Occupied?
      ensures exists k: nat :: SettledPath(s, P + {i}, H, s[j].e.hash, k, j)
    {
      if j == i {
        assert SettledPath(s, P + {i}, H, s[j].e.hash, 0, j);
      } else {
        var k: nat :| SettledPath(s, P, H, s[j].e.hash, k, j);
        KeepsPath(s, P, H, s, P + {i}, H, s[j].e.hash, k, j);
      }
    }
  }

  /** Lifting an element: from a processed slot it leaves a hole; an
      unprocessed slot nobody depends on. */
  lemma SettledLift<K, V>(s: seq<Slot<K, V>>, P: set<nat>, H: set<nat>, i: nat)
    requires Settled(s, P, H) && i < |s| && s[i].Occupied?
    ensures var G := if i in P then H + {i} else H;
            Settled(s[i := Free], P, G) && Keeps(s, P, H, s[i := Free], P, G)
  {
    var t, G := s[i := Free], if i in P then H + {i} else H;
    forall j | j in P && t[j].Occupied?
      ensures exists k: nat :: SettledPath(t, P, G, t[j].e.hash, k, j)
    {
      var k: nat :| SettledPath(s, P, H, s[j].e.hash, k, j);
      KeepsPath(s, P, H, t, P, G, s[j].e.hash, k, j);
    }
  }

  /** A probe the loop has moved past. */
  ghost predicate Passed<K, V>(t: seq<Slot<K, V>>, Q: set<nat>, L: set<nat>, p: nat) {
    p < |t| && p in Q && p !in L && t[p].Occupied?
  }

  ghost predicate PassedAll<K, V>(t: seq<Slot<K, V>>, Q: set<nat>, L: set<nat>, hash: nat, n: nat) {
    n <= |t| && forall j | 0 <= j < n :: Passed(t, Q, L, Probe(hash, j, |t|))
  }

  /** Slots outside Q are the same in s and t. */
  ghost predicate Untouched<K, V>(s: seq<Slot<K, V>>, t: seq<Slot<K, V>>, Q: set<nat>) {
    |s| == |t| && forall i | 0 <= i < |s| && i !in Q :: t[i] == s[i]
  }

  /** Putting a lifted element down into an empty processed slot that all its
      earlier probes, still occupied, lead to. */
  lemma SettledPlace<K, V>(s: seq<Slot<K, V>>, P: set<nat>, G: set<nat>, e: Entry<K, V>, k: nat, i: nat)
    requires Settled(s, P, G) && i in P && !s[i].Occupied?
    requires k < |s| && Probe(e.hash, k, |s|) == i
    requires PassedAll(s, P, G, e.hash, k)
    ensures Settled(s[i := Occupied(e)], P, G - {i})
    ensures Keeps(s, P, G, s[i := Occupied(e)], P, G - {i})
  {
    var t, H := s[i := Occupied(e)], G - {i};
    assert Keeps(s, P, G, t, P, H);
    forall j | j in P && t[j].Occupied?
      ensures exists k: nat :: SettledPath(t, P, H, t[j].e.hash, k, j)
    {
      if j == i {
        assert SettledPath(t, P, H, e.hash, k, i);
      } else {
        var k: nat :| SettledPath(s, P, G, s[j].e.hash, k, j);
        KeepsPath(s, P, G, t, P, H, s[j].e.hash, k, j);
      }
    }
  }

  lemma KeepsTrans<K, V>(s: seq<Slot<K, V>>, P: set<nat>, H: set<nat>,
                         t: seq<Slot<K, V>>, Q: set<nat>, G: set<nat>,
                         u: seq<Slot<K, V>>, R: set<nat>, F: set<nat>)
    requires Keeps(s, P, H, t, Q, G) && Keeps(t, Q, G, u, R, F)
    ensures Keeps(s, P, H, u, R, F)
  {
  }

  lemma SettledFacts<K, V>(s: seq<Slot<K, V>>, P: set<nat>, H: set<nat>, i: nat)
    requires Settled(s, P, H) && i < |s|
    ensures H <= P && (i in H ==> s[i].Free?) && (i in P ==> !s[i].Removed?)
  {
  }

  lemma KeepsLength<K, V>(s: seq<Slot<K, V>>, P: set<nat>, H: set<nat>,
                          t: seq<Slot<K, V>>, Q: set<nat>, G: set<nat>)
    requires Keeps(s, P, H, t, Q, G)
    ensures |s| == |t| && P <= Q
  {
  }

  /** When every slot is processed and nothing is lifted, the table is tight. */
  lemma SettledTight<K, V>(s: seq<Slot<K, V>>, P: set<nat>)
    requires Settled(s, P, {}) && forall i | 0 <= i < |s| && i !in P :: s[i].Free?
    ensures Tight(s)
  {
    forall i | 0 <= i < |s| && s[i].Occupied?
      ensures exists k: nat :: TightPath(s, s[i].e.hash, k, i)
    {
      var k: nat :| SettledPath(s, P, {}, s[i].e.hash, k, i);
      assert TightPath(s, s[i].e.hash, k, i);
    }
  }

  /** Hole bookkeeping: if i is no hole after relocating it under holes G,
      the holes are still G and i was not one of them. */
  lemma SameHoles(G: set<nat>, G': set<nat>, i: nat)
    requires G' <= G + {i} && |G'| == |G| && i !in G'
    ensures G' == G && i !in G
  {
    assert G' <= G - {i};
    if i in G {
      assert |G - {i}| == |G| - 1;
      SubsetCard(G', G - {i});
    } else {
      SubsetSameSize(G', G);
    }
  }

  lemma SubsetCard(a: set<nat>, b: set<nat>)
    requires a <= b
    ensures |a| <= |b|
  {
    assert b == a + (b - a);
    assert |b| == |a| + |b - a|;
  }

  // ------------------------------------------------------ one relocation

  /** What relocating slot i0 achieves, from slots s with processed set P,
      holes H and collision counter nc to t, Q, G and mc. */
  ghost predicate Relocated<K, V>(s: seq<Slot<K, V>>, P: set<nat>, H: set<nat>, nc: int, i0: nat,
                                  t: seq<Slot<K, V>>, Q: set<nat>, G: set<nat>, mc: int) {
    && Settled(t, Q, G) && Keeps(s, P, H, t, Q, G)
    && i0 in Q && |G| == |H| && G <= H + {i0}
    && (i0 in P ==> Q == P)
    && Untouched(s, t, Q)
    && Bag(t) == Bag(s)
    && mc - |Strays(t, Q)| >= nc - |Strays(s, P)|
  }

  /** Holes while the element of i0 is lifted. */
  ghost function Lifted(P: set<nat>, H: set<nat>, i0: nat): set<nat> {
    if i0 in P then H + {i0} else H
  }

  /** Invariant of the probing loop of relocate, before its k-th probe i (from
      1) for the element e lifted from i0; s is the state before the call. */
  ghost predicate Seeking<K, V>(s: seq<Slot<K, V>>, P: set<nat>, H: set<nat>, nc: int, i0: nat, e: Entry<K, V>,
                                t: seq<Slot<K, V>>, Q: set<nat>, mc: int, k: nat, i: nat) {
    && i0 < |s| == |t| && i0 !in H && 1 <= k <= |s| && i == Probe(e.hash, k - 1, |s|)
    && Settled(t, Q, Lifted(P, H, i0)) && Keeps(s, P, H, t, Q, Lifted(P, H, i0))
    && PassedAll(t, Q, Lifted(P, H, i0), e.hash, k - 1)
    && (i0 in P ==> Q == P && HasPath(s, P, H, e.hash, i0))
    && Untouched(s[i0 := Free], t, Q)
    && Bag(t) + multiset{e} == Bag(s)
    && mc - |Strays(t, Q)| >= nc - |Strays(s, P)| + (if i0 in P then 1 else 0)
  }

  lemma RelocateEmpty<K, V>(s: seq<Slot<K, V>>, P: set<nat>, H: set<nat>, nc: int, i0: nat)
    requires Settled(s, P, H) && i0 < |s| && !s[i0].Occupied?
    requires H != {} ==> i0 in P
    ensures Relocated(s, P, H, nc, i0, s[i0 := Free], P + {i0}, H, nc)
  {
    hide Settled, Keeps, Strays, Bag;
    SettledClear(s, P, H, i0);
    var t := s[i0 := Free];
    SettledAddEmpty(t, P, H, i0);
    KeepsTrans(s, P, H, t, P, H, t, P + {i0}, H);
    StraysShrink(s, P, i0, Free);
    StraysGrow(t, P, i0);
    BagChange(s, i0, Free);
    assert i0 in P ==> P + {i0} == P;
  }

  lemma RelocateHome<K, V>(s: seq<Slot<K, V>>, P: set<nat>, H: set<nat>, nc: int, i0: nat)
    requires Settled(s, P, H) && i0 < |s| && s[i0].Occupied? && Probe(s[i0].e.hash, 0, |s|) == i0
    ensures Relocated(s, P, H, nc, i0, s, P + {i0}, H, nc)
  {
    hide Settled, Keeps, Strays, Bag;
    assert i0 in P ==> P + {i0} == P;
    SettledAddHome(s, P, H, i0);
    StraysGrow(s, P, i0);
  }

  lemma RelocateLift<K, V>(s: seq<Slot<K, V>>, P: set<nat>, H: set<nat>, nc: int, i0: nat)
    requires Settled(s, P, H) && i0 < |s| && s[i0].Occupied? && Probe(s[i0].e.hash, 0, |s|) != i0
    requires IsPow2(|s|)
    ensures Seeking(s, P, H, nc, i0, s[i0].e, s[i0 := Free], P, nc, 1, Probe(s[i0].e.hash, 0, |s|))
  {
    SettledLift(s, P, H, i0);
    BagChange(s, i0, Free);
    StraysShrink(s, P, i0, Free);
  }

  /** What the recursive call on the next probe needs; one entry is lifted,
      so it works on a smaller bag. */
  lemma RelocateAgain<K, V>(s: seq<Slot<K, V>>, P: set<nat>, H: set<nat>, nc: int, i0: nat, e: Entry<K, V>,
                            t: seq<Slot<K, V>>, Q: set<nat>, mc: int, k: nat, i: nat)
    requires Seeking(s, P, H, nc, i0, e, t, Q, mc, k, i)
    requires H != {} ==> i0 in P
    ensures i < |t| == |s| && 1 <= k <= |s|
    ensures Settled(t, Q, Lifted(P, H, i0)) && (Lifted(P, H, i0) != {} ==> i in Q)
    ensures |Bag(t)| < |Bag(s)|
  {
    hide Settled, HasPath, Strays, Bag, Keeps, PassedAll, Untouched, Covered;
    if i0 in P {
      SeekCovered(s, P, H, i0, e.hash, t, Q, k, i);
    }
  }

  /** The next probe is still occupied after its own relocation: go on. */
  lemma RelocateNext<K, V>(s: seq<Slot<K, V>>, P: set<nat>, H: set<nat>, nc: int, i0: nat, e: Entry<K, V>,
                           t: seq<Slot<K, V>>, Q: set<nat>, mc: int, k: nat, i: nat,
                           u: seq<Slot<K, V>>, R: set<nat>, G: set<nat>, lc: int)
    requires Seeking(s, P, H, nc, i0, e, t, Q, mc, k, i) && IsPow2(|s|)
    requires Relocated(t, Q, Lifted(P, H, i0), mc, i, u, R, G, lc) && u[i].Occupied?
    requires H != {} ==> i0 in P
    ensures Seeking(s, P, H, nc, i0, e, u, R, lc, k + 1, Mask(i + k, |s|))
  {
    hide Settled, HasPath, Strays, Bag, Keeps, PassedAll, Untouched, Covered;
    var L := Lifted(P, H, i0);
    KeepsLength(t, Q, L, u, R, G);
    SettledFacts(u, R, G, i);
    if i0 in P {
      SeekCovered(s, P, H, i0, e.hash, t, Q, k, i);
    }
    SameHoles(L, G, i);
    PassedKept(t, Q, L, u, R, G, e.hash, k, i);
    SlotCount(s);
    PassedBound(u, R, L, e.hash, k, |Bag(s)|);
    PassedMore(u, R, L, e.hash, k);
    UntouchedTrans(s[i0 := Free], t, Q, u, R);
    ProbeStep(e.hash, k - 1, |s|);
    KeepsTrans(s, P, H, t, Q, L, u, R, L);
  }

  /** The slots passed so far, and the one just relocated, stay passed. */
  lemma PassedKept<K, V>(t: seq<Slot<K, V>>, Q: set<nat>, L: set<nat>, u: seq<Slot<K, V>>, R: set<nat>, G: set<nat>,
                         hash: nat, k: nat, i: nat)
    requires 1 <= k <= |t| && IsPow2(|t|) && i == Probe(hash, k - 1, |t|)
    requires PassedAll(t, Q, L, hash, k - 1)
    requires Keeps(t, Q, L, u, R, G) && G <= L + {i} && Settled(u, R, G)
    ensures PassedAll(u, R, G, hash, k - 1)
  {
    forall j | 0 <= j < k - 1 ensures Passed(u, R, G, Probe(hash, j, |t|)) {
      var p := Probe(hash, j, |t|);
      ProbeInjective(hash, j, k - 1, |t|);
      assert Passed(t, Q, L, p);
      assert Covered(t, Q, L, p);
      assert Covered(u, R, G, p);
    }
  }

  lemma PassedMore<K, V>(t: seq<Slot<K, V>>, Q: set<nat>, L: set<nat>, hash: nat, k: nat)
    requires 1 <= k <= |t| && PassedAll(t, Q, L, hash, k - 1)
    requires Passed(t, Q, L, Probe(hash, k - 1, |t|))
    ensures PassedAll(t, Q, L, hash, k)
  {
  }

  lemma UntouchedTrans<K, V>(s: seq<Slot<K, V>>, t: seq<Slot<K, V>>, Q: set<nat>, u: seq<Slot<K, V>>, R: set<nat>)
    requires Untouched(s, t, Q) && Untouched(t, u, R) && Q <= R
    ensures Untouched(s, u, R)
  {
  }

  lemma UntouchedPlace<K, V>(s: seq<Slot<K, V>>, i0: nat, u: seq<Slot<K, V>>, i: nat, x: Slot<K, V>, R: set<nat>)
    requires i0 < |s| && Untouched(s[i0 := Free], u, R) && i < |u| && i in R
    ensures Untouched(s, u[i := x], R + {i0})
    ensures i0 !in R ==> u[i := x][i0] == Free
  {
  }

  /** With one element lifted the table is not full, so the probes passed
      cannot be all of them. */
  lemma PassedBound<K, V>(u: seq<Slot<K, V>>, R: set<nat>, L: set<nat>, hash: nat, k: nat, n: nat)
    requires 1 <= k <= |u| && IsPow2(|u|)
    requires PassedAll(u, R, L, hash, k - 1)
    requires u[Probe(hash, k - 1, |u|)].Occupied?
    requires |Bag(u)| < n && n <= |u|
    ensures k < |u|
  {
    if k == |u| {
      forall j | 0 <= j < k ensures u[Probe(hash, j, |u|)].Occupied? {
        if j < k - 1 {
          assert Passed(u, R, L, Probe(hash, j, |u|));
        }
      }
      AllOccupied(u, hash);
    }
  }

  lemma AllOccupied<K, V>(u: seq<Slot<K, V>>, hash: nat)
    requires IsPow2(|u|)
    requires forall j | 0 <= j < |u| :: u[Probe(hash, j, |u|)].Occupied?
    ensures |Bag(u)| == |u|
  {
    forall z | 0 <= z < |u| ensures u[z].Occupied? {
      var j := ProbeCovers(hash, z, |u|);
    }
    SlotCount(u);
  }

  /** The next probe is empty after its own relocation: put the element down. */
  lemma RelocatePlace<K, V>(s: seq<Slot<K, V>>, P: set<nat>, H: set<nat>, nc: int, i0: nat, e: Entry<K, V>,
                            t: seq<Slot<K, V>>, Q: set<nat>, mc: int, k: nat, i: nat,
                            u: seq<Slot<K, V>>, R: set<nat>, G: set<nat>, lc: int)
    requires Seeking(s, P, H, nc, i0, e, t, Q, mc, k, i) && IsPow2(|s|)
    requires Relocated(t, Q, Lifted(P, H, i0), mc, i, u, R, G, lc) && !u[i].Occupied?
    requires H != {} ==> i0 in P
    ensures Relocated(s, P, H, nc, i0, u[i := Occupied(e)], R + {i0}, G - {i}, if k > 1 then lc + 1 else lc)
  {
    hide Settled, HasPath, Strays, Bag, Keeps, PassedAll, Untouched, Covered;
    var L := Lifted(P, H, i0);
    KeepsLength(t, Q, L, u, R, G);
    var v := u[i := Occupied(e)];
    PassedKept(t, Q, L, u, R, G, e.hash, k, i);
    KeepsTrans(s, P, H, t, Q, L, u, R, G);
    SettledPlace(u, R, G, e, k - 1, i);
    KeepsTrans(s, P, H, u, R, G, v, R, G - {i});
    BagChange(u, i, Occupied(e));
    StraysPlace(u, R, i, e);
    assert Bag(v) == Bag(s);
    UntouchedTrans(s[i0 := Free], t, Q, u, R);
    UntouchedPlace(s, i0, u, i, Occupied(e), R);
    if i0 in P {
      SeekCovered(s, P, H, i0, e.hash, t, Q, k, i);
      PlaceHole(P, H, i0, t, Q, i, u, R, G);
      assert R + {i0} == R;
    } else {
      assert L == {} && G == {} by { assert |G| == 0; }
      assert G - {i} == {};
      if i0 !in R {
        assert v[i0] == Free;
        SettledAddEmpty(v, R, G - {i}, i0);
        KeepsTrans(s, P, H, v, R, G - {i}, v, R + {i0}, G - {i});
        StraysGrow(v, R, i0);
      } else {
        assert R + {i0} == R;
      }
    }
  }

  /** A settled element only ever probes covered slots: it stops, at the
      latest, at the hole it left itself. */
  lemma SeekCovered<K, V>(s: seq<Slot<K, V>>, P: set<nat>, H: set<nat>, i0: nat, hash: nat,
                          t: seq<Slot<K, V>>, Q: set<nat>, k: nat, i: nat)
    requires i0 in P && |s| == |t| && 1 <= k <= |s| && i == Probe(hash, k - 1, |s|) && i0 < |s|
    requires PassedAll(t, Q, H + {i0}, hash, k - 1)
    requires HasPath(s, P, H, hash, i0)
    requires Keeps(s, P, H, t, Q, H + {i0}) && i0 in Q
    ensures Covered(t, Q, H + {i0}, i) && i in Q
  {
    var m: nat :| SettledPath(s, P, H, hash, m, i0);
    assert k - 1 <= m;
    if k - 1 < m {
      assert Covered(s, P, H, i);
    }
  }

  /** The empty slot a settled element arrives at is a hole. */
  lemma PlaceHole<K, V>(P: set<nat>, H: set<nat>, i0: nat, t: seq<Slot<K, V>>, Q: set<nat>, i: nat,
                        u: seq<Slot<K, V>>, R: set<nat>, G: set<nat>)
    requires i0 in P && i0 !in H && i < |t| && Covered(t, Q, H + {i0}, i)
    requires Keeps(t, Q, H + {i0}, u, R, G)
    requires |G| == |H + {i0}| && G <= H + {i0} + {i} && !u[i].Occupied?
    ensures i in G && |G - {i}| == |H| && G - {i} <= H + {i0}
  {
    assert Covered(u, R, G, i);
    assert |H + {i0}| == |H| + 1;
  }

  // ------------------------------------------------------ a whole pass

  /** State of a rehash loop that began at slots s with counter nc: the slots
      of P are done. */
  ghost predicate Passing<K, V>(s: seq<Slot<K, V>>, t: seq<Slot<K, V>>, P: set<nat>, mc: int) {
    Settled(t, P, {}) && Untouched(s, t, P) && Bag(t) == Bag(s) && mc >= |Strays(t, P)|
  }

  lemma PassStart<K, V>(s: seq<Slot<K, V>>, nc: nat)
    ensures Passing(s, s, {}, nc)
  {
    assert Strays(s, {}) == {};
  }

  lemma PassReady<K, V>(s: seq<Slot<K, V>>, t: seq<Slot<K, V>>, P: set<nat>, mc: int)
    requires Passing(s, t, P, mc)
    ensures Settled(t, P, {}) && |t| == |s|
  {
  }

  lemma PassStep<K, V>(s: seq<Slot<K, V>>, t: seq<Slot<K, V>>, P: set<nat>, mc: int, i: nat,
                       u: seq<Slot<K, V>>, Q: set<nat>, G: set<nat>, lc: int)
    requires Passing(s, t, P, mc) && Relocated(t, P, {}, mc, i, u, Q, G, lc)
    ensures Passing(s, u, Q, lc) && P + {i} <= Q
  {
    hide Settled, Bag, Strays;
    assert G == {} by {
      assert |G| == 0;
    }
  }

  /** After the pass: no tombstone, everything reachable through occupied
      slots, and the counters are sound. */
  lemma PassDone<K, V>(s: seq<Slot<K, V>>, t: seq<Slot<K, V>>, P: set<nat>, mc: int)
    requires Passing(s, t, P, mc)
    requires forall i | 0 <= i < |s| && i !in P :: s[i].Free?
    ensures Tight(t) && Reachable(t) && Bag(t) == Bag(s)
    ensures FreeCount(t) + |Bag(t)| == |t|
    ensures mc >= |Strays(t, Below(|t|))|
  {
    SettledTight(t, P);
    TightReachable(t);
    SlotCount(t);
    assert Strays(t, Below(|t|)) == Strays(t, P);
  }

  // ------------------------------------------------------ probing loops

  /** The first n probes are all occupied. */
  ghost predicate OccupiedRun<K, V>(s: seq<Slot<K, V>>, hash: nat, n: nat) {
    |s| > 0 && forall j | 0 <= j < n :: s[Probe(hash, j, |s|)].Occupied?
  }

  /** None of the first n probes is FREE. */
  ghost predicate UsedRun<K, V>(s: seq<Slot<K, V>>, hash: nat, n: nat) {
    |s| > 0 && forall j | 0 <= j < n :: !s[Probe(hash, j, |s|)].Free?
  }

  /** None of the first n probes holds the key. */
  ghost predicate KeyMissed<K, V>(s: seq<Slot<K, V>>, hash: nat, n: nat, key: K) {
    |s| > 0 &&
    forall j | 0 <= j < n :: var x := s[Probe(hash, j, |s|)]; x.Occupied? ==> x.e.key != key
  }

  lemma RunStart<K, V>(s: seq<Slot<K, V>>, hash: nat, key: K)
    requires |s| > 0
    ensures OccupiedRun(s, hash, 0) && UsedRun(s, hash, 0) && KeyMissed(s, hash, 0, key)
  {
  }

  lemma OccupiedMore<K, V>(s: seq<Slot<K, V>>, hash: nat, key: K, n: nat)
    requires OccupiedRun(s, hash, n) && KeyMissed(s, hash, n, key) && n < |s|
    requires s[Probe(hash, n, |s|)].Occupied?
    ensures OccupiedRun(s, hash, n + 1)
    ensures s[Probe(hash, n, |s|)].e.key != key ==> KeyMissed(s, hash, n + 1, key)
    ensures s[Probe(hash, n, |s|)].e.key == key ==> MeetsKey(s, hash, key) && HasKey(Bag(s), key)
  {
    if s[Probe(hash, n, |s|)].e.key == key {
      assert MeetsKeyAt(s, hash, key, n);
      MeetsKeyHas(s, hash, key, n);
    }
  }

  lemma UsedMore<K, V>(s: seq<Slot<K, V>>, hash: nat, key: K, n: nat)
    requires UsedRun(s, hash, n) && KeyMissed(s, hash, n, key)
    requires var x := s[Probe(hash, n, |s|)]; !x.Free? && (x.Occupied? ==> x.e.key != key)
    ensures UsedRun(s, hash, n + 1) && KeyMissed(s, hash, n + 1, key)
  {
  }

  lemma HashedHas<K, V>(s: seq<Slot<K, V>>, i: nat, hashF: K -> nat)
    requires Hashed(Bag(s), hashF) && i < |s| && s[i].Occupied?
    ensures s[i].e.hash == hashF(s[i].e.key)
  {
    BagHas(s, i);
  }

  lemma HashedAdd<K, V>(bag: multiset<Entry<K, V>>, e: Entry<K, V>, hashF: K -> nat)
    requires Hashed(bag, hashF) && e.hash == hashF(e.key)
    ensures Hashed(bag + multiset{e}, hashF)
  {
  }

  lemma HashedLess<K, V>(bag: multiset<Entry<K, V>>, e: Entry<K, V>, hashF: K -> nat)
    requires Hashed(bag, hashF)
    ensures forall rest | rest + multiset{e} == bag :: Hashed(rest, hashF)
  {
  }

  lemma OccupiedRunBound<K, V>(s: seq<Slot<K, V>>, hash: nat, n: nat)
    requires IsPow2(|s|) && n <= |s| && OccupiedRun(s, hash, n) && |Bag(s)| < |s|
    ensures n < |s|
  {
    if n == |s| {
      AllOccupied(s, hash);
    }
  }

  lemma UsedRunBound<K, V>(s: seq<Slot<K, V>>, hash: nat, n: nat)
    requires IsPow2(|s|) && n <= |s| && UsedRun(s, hash, n) && FreeCount(s) > 0
    ensures n < |s|
  {
    var z := SomeFree(s);
    var j := ProbeCovers(hash, z, |s|);
  }

  /** The probes of insert meet the key before any slot without an element. */
  ghost predicate MeetsKey<K, V>(s: seq<Slot<K, V>>, hash: nat, key: K) {
    exists k: nat :: MeetsKeyAt(s, hash, key, k)
  }

  ghost predicate MeetsKeyAt<K, V>(s: seq<Slot<K, V>>, hash: nat, key: K, k: nat) {
    k < |s| && OccupiedRun(s, hash, k + 1) && s[Probe(hash, k, |s|)].e.key == key
  }

  lemma MeetsKeyHas<K, V>(s: seq<Slot<K, V>>, hash: nat, key: K, k: nat)
    requires MeetsKeyAt(s, hash, key, k)
    ensures HasKey(Bag(s), key)
  {
    BagHas(s, Probe(hash, k, |s|));
  }

  lemma MeetsImpliesHas<K, V>(s: seq<Slot<K, V>>, hash: nat, key: K)
    ensures MeetsKey(s, hash, key) ==> HasKey(Bag(s), key)
  {
    if k: nat :| MeetsKeyAt(s, hash, key, k) {
      MeetsKeyHas(s, hash, key, k);
    }
  }

  /** Without tombstones in the way, insert sees every duplicate. */
  lemma TightMeets<K, V>(s: seq<Slot<K, V>>, hashF: K -> nat, key: K)
    requires Tight(s) && Hashed(Bag(s), hashF)
    ensures MeetsKey(s, hashF(key), key) <==> HasKey(Bag(s), key)
  {
    if k: nat :| MeetsKeyAt(s, hashF(key), key, k) {
      MeetsKeyHas(s, hashF(key), key, k);
    }
    if e :| e in Bag(s) && e.key == key {
      var i := BagSlot(s, e);
      var k: nat :| TightPath(s, e.hash, k, i);
      assert MeetsKeyAt(s, hashF(key), key, k);
    }
  }

  lemma RunMore<K, V>(s: seq<Slot<K, V>>, hash: nat, n: nat)
    requires n < |s|
    ensures OccupiedRun(s, hash, n) && s[Probe(hash, n, |s|)].Occupied? ==> OccupiedRun(s, hash, n + 1)
  {
  }

  /** Once search has found the key with probe k, and moved its element to the
      first tombstone, the probe m < k, insert meets it - also if there was no
      tombstone, m == k. */
  lemma SearchMeets<K, V>(s: seq<Slot<K, V>>, hash: nat, key: K, m: nat, k: nat)
    requires m <= k < |s| && IsPow2(|s|) && OccupiedRun(s, hash, m)
    requires s[Probe(hash, k, |s|)].Occupied? && s[Probe(hash, k, |s|)].e.key == key
    ensures m == k ==> MeetsKey(s, hash, key)
    ensures m < k ==> MeetsKey(Migrate(s, Probe(hash, m, |s|), Probe(hash, k, |s|)), hash, key)
  {
    if m == k {
      assert MeetsKeyAt(s, hash, key, k);
    } else {
      var t := Migrate(s, Probe(hash, m, |s|), Probe(hash, k, |s|));
      forall j: nat | j <= m ensures t[Probe(hash, j, |s|)].Occupied? {
        ProbeInjective(hash, j, k, |s|);
        if j < m {
          ProbeInjective(hash, j, m, |s|);
        }
      }
      assert MeetsKeyAt(t, hash, key, m);
    }
  }

  lemma PlaceMeets<K, V>(s: seq<Slot<K, V>>, e: Entry<K, V>, k: nat)
    requires k < |s| && OccupiedRun(s, e.hash, k)
    ensures MeetsKey(s[Probe(e.hash, k, |s|) := Occupied(e)], e.hash, e.key)
  {
    assert MeetsKeyAt(s[Probe(e.hash, k, |s|) := Occupied(e)], e.hash, e.key, k);
  }

  lemma KeyNotMet<K, V>(s: seq<Slot<K, V>>, hash: nat, key: K, n: nat)
    requires n < |s| && KeyMissed(s, hash, n, key) && !s[Probe(hash, n, |s|)].Occupied?
    ensures !MeetsKey(s, hash, key)
  {
  }

  ghost predicate Hashed<K, V>(bag: multiset<Entry<K, V>>, hashF: K -> nat) {
    forall e | e in bag :: e.hash == hashF(e.key)
  }

  ghost predicate HasKey<K, V>(bag: multiset<Entry<K, V>>, key: K) {
    exists e :: e in bag && e.key == key
  }

  /** A search that meets a FREE slot has seen every place the key can be. */
  lemma SearchMiss<K, V>(s: seq<Slot<K, V>>, hashF: K -> nat, key: K, n: nat)
    requires Reachable(s) && Hashed(Bag(s), hashF)
    requires KeyMissed(s, hashF(key), n, key) && s[Probe(hashF(key), n, |s|)].Free?
    ensures !HasKey(Bag(s), key)
  {
    forall e | e in Bag(s) ensures e.key != key {
      var i := BagSlot(s, e);
      var k: nat :| Path(s, e.hash, k, i);
      NotOnPath(s, hashF, key, n, i, k);
    }
  }

  lemma NotOnPath<K, V>(s: seq<Slot<K, V>>, hashF: K -> nat, key: K, n: nat, i: nat, k: nat)
    requires KeyMissed(s, hashF(key), n, key) && s[Probe(hashF(key), n, |s|)].Free?
    requires i < |s| && s[i].Occupied? && s[i].e.hash == hashF(s[i].e.key) && Path(s, s[i].e.hash, k, i)
    ensures s[i].e.key != key
  {
  }

  /** Placing an element at the end of a run of occupied slots. */
  lemma PlaceReachable<K, V>(s: seq<Slot<K, V>>, e: Entry<K, V>, k: nat, i: nat)
    requires Reachable(s) && OccupiedRun(s, e.hash, k) && k < |s| && i == Probe(e.hash, k, |s|)
    requires !s[i].Occupied?
    ensures Reachable(s[i := Occupied(e)])
  {
    var t := s[i := Occupied(e)];
    forall j | 0 <= j < |t| && t[j].Occupied? ensures exists k: nat :: Path(t, t[j].e.hash, k, j) {
      if j == i {
        assert Path(t, e.hash, k, i);
      } else {
        var m: nat :| Path(s, s[j].e.hash, m, j);
        assert Path(t, t[j].e.hash, m, j);
      }
    }
  }

  /** Tombstoning an element keeps every other element reachable. */
  lemma RemoveReachable<K, V>(s: seq<Slot<K, V>>, i: nat)
    requires Reachable(s) && i < |s| && s[i].Occupied?
    ensures Reachable(s[i := Removed])
  {
    var t := s[i := Removed];
    forall j | 0 <= j < |t| && t[j].Occupied? ensures exists k: nat :: Path(t, t[j].e.hash, k, j) {
      var m: nat :| Path(s, s[j].e.hash, m, j);
      assert Path(t, t[j].e.hash, m, j);
    }
  }

  /** The slots after search moves the element of slot i to tombstone f. */
  function Migrate<K, V>(s: seq<Slot<K, V>>, f: nat, i: nat): seq<Slot<K, V>>
    requires f < |s| && i < |s|
  {
    s[f := s[i]][i := Removed]
  }

  lemma MigrateReachable<K, V>(s: seq<Slot<K, V>>, hash: nat, m: nat, k: nat)
    requires Reachable(s) && m < k < |s| && IsPow2(|s|) && UsedRun(s, hash, k)
    requires s[Probe(hash, m, |s|)].Removed?
    requires s[Probe(hash, k, |s|)].Occupied? && s[Probe(hash, k, |s|)].e.hash == hash
    ensures Reachable(Migrate(s, Probe(hash, m, |s|), Probe(hash, k, |s|)))
  {
    var f, i := Probe(hash, m, |s|), Probe(hash, k, |s|);
    ProbeInjective(hash, m, k, |s|);
    var t := Migrate(s, f, i);
    forall j | 0 <= j < |t| && t[j].Occupied? ensures exists k: nat :: Path(t, t[j].e.hash, k, j) {
      if j == f {
        assert Path(t, hash, m, f);
      } else {
        var n: nat :| Path(s, s[j].e.hash, n, j);
        assert Path(t, t[j].e.hash, n, j);
      }
    }
  }

  /** What the move leaves alone: the bag and the FREE slots. If it brings the
      element home there is one stray less, otherwise equally many. */
  lemma MigrateCounts<K, V>(s: seq<Slot<K, V>>, hash: nat, m: nat, k: nat)
    requires m < k < |s| && IsPow2(|s|)
    requires s[Probe(hash, m, |s|)].Removed?
    requires s[Probe(hash, k, |s|)].Occupied? && s[Probe(hash, k, |s|)].e.hash == hash
    ensures var t := Migrate(s, Probe(hash, m, |s|), Probe(hash, k, |s|));
            Bag(t) == Bag(s) && FreeCount(t) == FreeCount(s) &&
            |Strays(t, Below(|s|))| == |Strays(s, Below(|s|))| - (if m == 0 then 1 else 0)
  {
    hide Strays, Bag, FreeCount;
    var f, i := Probe(hash, m, |s|), Probe(hash, k, |s|);
    ProbeInjective(hash, m, k, |s|);
    ProbeInjective(hash, 0, k, |s|);
    if m > 0 {
      ProbeInjective(hash, 0, m, |s|);
    }
    var u := s[i := Removed];
    var t := u[f := s[i]];
    assert t == Migrate(s, f, i);
    BagChange(s, i, Removed);
    BagChange(u, f, s[i]);
    FreeUpdate(s, i, Removed);
    FreeUpdate(u, f, s[i]);
    StraysShrink(s, Below(|s|), i, Removed);
    StraysPlace(u, Below(|s|), f, s[i].e);
  }

  // ------------------------------------------------ invariant between calls

  /** The table between operations: slots s, with exact length n, mc at least
      the number of strays and nfree at most the number of FREE slots. */
  ghost predicate ValidSlots<K, V>(s: seq<Slot<K, V>>, hashF: K -> nat, n: nat, mc: int, nfree: int) {
    && IsPow2(|s|) && 32 <= |s|
    && Reachable(s) && Hashed(Bag(s), hashF)
    && n == |Bag(s)| && nfree <= FreeCount(s) && |Strays(s, Below(|s|))| <= mc
    && |s| <= 2 * nfree + 2 && 2 * n <= |s| + 2
  }

  lemma ValidFacts<K, V>(s: seq<Slot<K, V>>, hashF: K -> nat, n: nat, mc: int, nfree: int)
    requires ValidSlots(s, hashF, n, mc, nfree)
    ensures IsPow2(|s|) && 32 <= |s| && Reachable(s) && Hashed(Bag(s), hashF)
    ensures n < |s| && FreeCount(s) >= |s| / 2 - 1 > 0
  {
  }

  lemma EmptyValid<K, V>(s: seq<Slot<K, V>>, hashF: K -> nat)
    requires |s| == 32 && forall i | 0 <= i < |s| :: s[i].Free?
    ensures ValidSlots(s, hashF, 0, 0, 32) && Tight(s) && Bag(s) == multiset{}
  {
    Pow2Initial();
    EmptyTable(s);
    hide Bag, Strays, Reachable, FreeCount, IsPow2;
  }

  /** Moving a found element into the first tombstone of its path. */
  lemma ValidMigrate<K, V>(s: seq<Slot<K, V>>, hashF: K -> nat, n: nat, mc: int, nfree: int, key: K, m: nat, k: nat)
    requires ValidSlots(s, hashF, n, mc, nfree)
    requires m < k < |s| && UsedRun(s, hashF(key), k) && s[Probe(hashF(key), m, |s|)].Removed?
    requires s[Probe(hashF(key), k, |s|)].Occupied? && s[Probe(hashF(key), k, |s|)].e.key == key
    ensures var f := Probe(hashF(key), m, |s|);
            var t := Migrate(s, f, Probe(hashF(key), k, |s|));
            var mc' := if f == Mask(hashF(key), |s|) then mc - 1 else mc;
            Bag(t) == Bag(s) && mc' >= 0 && ValidSlots(t, hashF, n, mc', nfree)
  {
    hide Bag, Strays, Reachable, FreeCount, UsedRun, Hashed;
    HashedHas(s, Probe(hashF(key), k, |s|), hashF);
    MigrateReachable(s, hashF(key), m, k);
    MigrateCounts(s, hashF(key), m, k);
    ProbeHome(hashF(key), m, |s|);
  }

  /** Removing a found element. */
  lemma ValidRemove<K, V>(s: seq<Slot<K, V>>, hashF: K -> nat, n: nat, mc: int, nfree: int, i: nat)
    requires ValidSlots(s, hashF, n, mc, nfree) && i < |s| && s[i].Occupied?
    ensures n > 0 && ValidSlots(s[i := Removed], hashF, n - 1, mc, nfree)
    ensures Bag(s) == Bag(s[i := Removed]) + multiset{s[i].e} && s[i].e.hash == hashF(s[i].e.key)
  {
    hide Bag, Strays, Reachable, FreeCount, Hashed;
    HashedHas(s, i, hashF);
    BagChange(s, i, Removed);
    FreeUpdate(s, i, Removed);
    StraysShrink(s, Below(|s|), i, Removed);
    RemoveReachable(s, i);
    HashedLess(Bag(s), s[i].e, hashF);
  }

  /** Placing a new element at the end of its run of occupied slots. */
  lemma ValidPlace<K, V>(s: seq<Slot<K, V>>, hashF: K -> nat, n: nat, mc: int, nfree: int, e: Entry<K, V>,
                         k: nat, i: nat)
    requires ValidSlots(s, hashF, n, mc, nfree) && 2 * n <= |s|
    requires k < |s| && OccupiedRun(s, e.hash, k) && e.hash == hashF(e.key)
    requires i == Probe(e.hash, k, |s|) && !s[i].Occupied?
    ensures var t := s[i := Occupied(e)];
            Settling(t, hashF, n, mc, nfree, k > 0, s[i].Free?) && Bag(t) == Bag(s) + multiset{e}
  {
    hide Bag, Strays, Reachable, FreeCount, Hashed, OccupiedRun;
    PlaceReachable(s, e, k, i);
    BagChange(s, i, Occupied(e));
    FreeUpdate(s, i, Occupied(e));
    StraysPlace(s, Below(|s|), i, e);
    HashedAdd(Bag(s), e, hashF);
  }

  /** ValidSlots right after an element was placed: the counters still miss it,
      and nfree may have to fall below its bound. */
  ghost predicate Settling<K, V>(s: seq<Slot<K, V>>, hashF: K -> nat, n: nat, mc: int, nfree: int,
                                 collided: bool, tookFree: bool) {
    && IsPow2(|s|) && 32 <= |s|
    && Reachable(s) && Hashed(Bag(s), hashF)
    && n + 1 == |Bag(s)| && 2 * (n + 1) <= |s| + 2
    && nfree - (if tookFree then 1 else 0) <= FreeCount(s)
    && |Strays(s, Below(|s|))| <= mc + (if collided then 1 else 0)
    && |s| <= 2 * nfree + 2
  }

  // ------------------------------------------------------ the finite map

  /** The bag is the graph of a finite map: one entry a key. */
  ghost predicate Represents<K(!new), V(!new)>(bag: multiset<Entry<K, V>>, hashF: K -> nat, m: map<K, V>) {
    forall e: Entry<K, V> ::
      bag[e] == if e.key in m && e == Entry(hashF(e.key), e.key, m[e.key]) then 1 else 0
  }

  lemma RepresentsEmpty<K(!new), V(!new)>(hashF: K -> nat)
    ensures Represents<K, V>(multiset{}, hashF, map[])
  {
  }

  lemma RepresentsHas<K(!new), V(!new)>(bag: multiset<Entry<K, V>>, hashF: K -> nat, m: map<K, V>, key: K)
    requires Represents(bag, hashF, m)
    ensures HasKey(bag, key) <==> key in m
    ensures forall e | e in bag && e.key == key :: key in m && e.val == m[key]
    ensures Hashed(bag, hashF)
  {
    if key in m {
      assert Entry(hashF(key), key, m[key]) in bag;
    }
  }

  lemma RepresentsInsert<K(!new), V(!new)>(bag: multiset<Entry<K, V>>, hashF: K -> nat, m: map<K, V>, key: K, val: V)
    requires Represents(bag, hashF, m) && key !in m
    ensures Represents(bag + multiset{Entry(hashF(key), key, val)}, hashF, m[key := val])
  {
  }

  lemma RepresentsRemove<K(!new), V(!new)>(bag: multiset<Entry<K, V>>, rest: multiset<Entry<K, V>>, hashF: K -> nat,
                                           m: map<K, V>, key: K, val: V)
    requires Represents(bag, hashF, m) && bag == rest + multiset{Entry(hashF(key), key, val)}
    ensures key in m && val == m[key] && Represents(rest, hashF, m - {key})
  {
    assert Entry(hashF(key), key, val) in bag;
  }

  lemma RepresentsSize<K(!new), V(!new)>(bag: multiset<Entry<K, V>>, hashF: K -> nat, m: map<K, V>)
    requires Represents(bag, hashF, m)
    ensures |bag| == |m|
    decreases |m|
  {
    if m == map[] {
      assert forall e :: bag[e] == 0;
      assert bag == multiset{};
    } else {
      var key :| key in m;
      var e := Entry(hashF(key), key, m[key]);
      assert e in bag;
      var rest := bag - multiset{e};
      assert bag == rest + multiset{e};
      RepresentsRemove(bag, rest, hashF, m, key, m[key]);
      assert m.Keys == (m - {key}).Keys + {key};
      RepresentsSize(rest, hashF, m - {key});
    }
  }

  // ------------------------------------------------------ iteration

  /** The entries in slot order, from slot i on. */
  function EntriesFrom<K, V>(s: seq<Slot<K, V>>, i: nat): seq<Entry<K, V>>
    decreases |s| - i
  {
    if i >= |s| then []
    else (if s[i].Occupied? then [s[i].e] else []) + EntriesFrom(s, i + 1)
  }

  lemma {:induction false} EntriesSkip<K, V>(s: seq<Slot<K, V>>, i: nat, j: nat)
    requires i <= j <= |s| && forall k | i <= k < j :: !s[k].Occupied?
    ensures EntriesFrom(s, i) == EntriesFrom(s, j)
    decreases j - i
  {
    if i < j {
      EntriesSkip(s, i + 1, j);
    }
  }

  lemma {:induction false} EntriesTake<K, V>(s: seq<Slot<K, V>>, i: nat)
    requires i < |s|
    ensures EntriesFrom(s, i) == EntriesFrom(s[..|s| - 1], i) + if s[|s| - 1].Occupied? then [s[|s| - 1].e] else []
    decreases |s| - i
  {
    var t := s[..|s| - 1];
    if i < |t| {
      EntriesTake(s, i + 1);
    } else {
      assert EntriesFrom(s, i + 1) == [];
    }
  }

  /** Slot order lists every entry exactly as often as the table holds it. */
  lemma {:induction false} EntriesAll<K, V>(s: seq<Slot<K, V>>)
    ensures multiset(EntriesFrom(s, 0)) == Bag(s)
  {
    if |s| > 0 {
      EntriesAll(s[..|s| - 1]);
      EntriesTake(s, 0);
    }
  }

  /** Of a table that represents a map, the iteration yields every key once. */
  lemma IterationEnumerates<K(!new), V(!new)>(all: seq<Entry<K, V>>, bag: multiset<Entry<K, V>>, hashF: K -> nat,
                                              m: map<K, V>)
    requires multiset(all) == bag && Represents(bag, hashF, m)
    ensures forall i, j | 0 <= i < j < |all| :: all[i].key != all[j].key
    ensures forall key :: key in m <==> exists i :: 0 <= i < |all| && all[i].key == key
    ensures forall i | 0 <= i < |all| :: all[i].key in m && all[i].val == m[all[i].key]
  {
    forall i | 0 <= i < |all| ensures all[i].key in m && all[i] == Entry(hashF(all[i].key), all[i].key, m[all[i].key]) {
      assert all[i] in bag;
    }
    forall i, j | 0 <= i < j < |all| ensures all[i].key != all[j].key {
      if all[i].key == all[j].key {
        SeqTwice(all, i, j);
      }
    }
    forall key | key in m ensures exists i :: 0 <= i < |all| && all[i].key == key {
      assert Entry(hashF(key), key, m[key]) in bag;
      assert Entry(hashF(key), key, m[key]) in all;
    }
  }

  lemma SeqTwice<E>(s: seq<E>, i: nat, j: nat)
    requires i < j < |s| && s[i] == s[j]
    ensures multiset(s)[s[i]] >= 2
  {
    assert s == s[..j] + s[j..];
    assert s[..j][i] in multiset(s[..j]);
    assert s[j..][0] in multiset(s[j..]);
  }

  // ------------------------------------------------------ missed duplicates

  /** In a table without tombstones, the home slot of an element that is stored
      holds an element. */
  lemma TightHome<K, V>(s: seq<Slot<K, V>>, e: Entry<K, V>)
    requires Tight(s) && e in Bag(s)
    ensures |s| > 0 && s[Probe(e.hash, 0, |s|)].Occupied? && s[Probe(e.hash, 0, |s|)].e in Bag(s)
  {
    var i := BagSlot(s, e);
    var k: nat :| TightPath(s, e.hash, k, i);
    BagHas(s, Probe(e.hash, 0, |s|));
  }

  /** Placing an element at the end of a run of occupied slots leaves no
      tombstone where there was none. */
  lemma PlaceTight<K, V>(s: seq<Slot<K, V>>, e: Entry<K, V>, k: nat, i: nat)
    requires Tight(s) && OccupiedRun(s, e.hash, k) && k < |s| && i == Probe(e.hash, k, |s|)
    ensures Tight(s[i := Occupied(e)])
  {
    var t := s[i := Occupied(e)];
    forall j | 0 <= j < |t| && t[j].Occupied? ensures exists k: nat :: TightPath(t, t[j].e.hash, k, j) {
      if j == i {
        assert TightPath(t, e.hash, k, i);
      } else {
        var m: nat :| TightPath(s, s[j].e.hash, m, j);
        assert TightPath(t, t[j].e.hash, m, j);
      }
    }
  }

  /** An element removed from its home slot hides every key of the same hash
      from insert. */
  lemma TombstoneHides<K, V>(s: seq<Slot<K, V>>, i: nat, x: Entry<K, V>, hash: nat, key: K)
    requires Bag(s)[x] == 1 && i < |s| && s[i] == Occupied(x) == s[Probe(hash, 0, |s|)]
    ensures !MeetsKey(s[i := Removed], hash, key)
  {
    var home := Probe(hash, 0, |s|);
    if i != home {
      BagTwice(s, i, home);
    }
    KeyNotMet(s[i := Removed], hash, key, 0);
  }
}
