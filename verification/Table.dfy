// The hash table of server/table.c: open addressing with triangular probing,
// tombstones, and a recursive in-place rehash.

module Table {
  import opened Probing
  import opened TableModel
  import opened Wrappers

  class Table<K(==), V> {
    const hashF: K -> nat

    var arr: array<Slot<K, V>>
    var cap: nat
    var len: nat
    var ncollisions: nat
    var nfree: nat

    /** dime_table_relocate. P is the set of slots already relocated in this
        pass, H the holes left by the active calls that lifted an element from
        a slot of P. */
    method Relocate(i0: nat, ghost P: set<nat>, ghost H: set<nat>)
      returns (ghost Q: set<nat>, ghost G: set<nat>)
      requires arr.Length == cap && IsPow2(cap) && i0 < cap
      requires Settled(arr[..], P, H)
      requires H != {} ==> i0 in P
      modifies arr, `ncollisions
      ensures Relocated(old(arr[..]), P, H, old(ncollisions), i0, arr[..], Q, G, ncollisions)
      decreases |Bag(arr[..])|
    {
      hide Mask, Probe, IsPow2, Relocated, Seeking, Settled, Bag, Lifted;
      ghost var s := arr[..];
      if !arr[i0].Occupied? {
        arr[i0] := Free;
        assert arr[..] == s[i0 := Free];
        RelocateEmpty(s, P, H, ncollisions, i0);
        return P + {i0}, H;
      }

      var tmp := arr[i0].e;
      var i: nat, k: nat := Mask(tmp.hash, cap), 1;
      ProbeStep(tmp.hash, 0, cap);
      if i == i0 {
        RelocateHome(s, P, H, ncollisions, i0);
        return P + {i0}, H;
      }

      arr[i0] := Free;
      RelocateLift(s, P, H, ncollisions, i0);
      assert arr[..] == s[i0 := Free];
      Q, G := P, Lifted(P, H, i0);
      ghost var t, R, mc;
      while true
        invariant arr.Length == cap && |arr[..]| == cap
        invariant Seeking(s, P, H, old(ncollisions), i0, tmp, arr[..], Q, ncollisions, k, i)
        decreases cap - k
      {
        t, R, mc := arr[..], Q, ncollisions;
        RelocateAgain(s, P, H, old(ncollisions), i0, tmp, t, R, mc, k, i);
        Q, G := Relocate(i, Q, Lifted(P, H, i0));
        if !arr[i].Occupied? {
          break;
        }
        RelocateNext(s, P, H, old(ncollisions), i0, tmp, t, R, mc, k, i, arr[..], Q, G, ncollisions);
        i, k := Mask(i + k, cap), k + 1;
      }
      RelocatePlace(s, P, H, old(ncollisions), i0, tmp, t, R, mc, k, i, arr[..], Q, G, ncollisions);
      ghost var u := arr[..];
      arr[i] := Occupied(tmp);
      assert arr[..] == u[i := Occupied(tmp)];
      if k > 1 {
        ncollisions := ncollisions + 1;
      }
      Q, G := Q + {i0}, G - {i};
    }

    /** Representation invariant between operations. */
    ghost predicate Valid()
      reads this, arr
    {
      arr.Length == cap && ValidSlots(arr[..], hashF, len, ncollisions, nfree)
    }

    ghost predicate Shaped()
      reads this, arr
    {
      arr.Length == cap && IsPow2(cap) && 32 <= cap
    }

    /** The entries of the table. */
    ghost function Entries(): multiset<Entry<K, V>>
      reads this, arr
    {
      Bag(arr[..])
    }

    /** dime_table_init. */
    constructor (hashF: K -> nat)
      ensures Valid() && fresh(arr) && Entries() == multiset{} && this.hashF == hashF
      ensures Tight(arr[..])
    {
      this.hashF := hashF;
      cap := 32;
      arr := new Slot<K, V>[32](_ => Free);
      len, ncollisions, nfree := 0, 0, 32;
      new;
      hide Bag, Tight, ValidSlots;
      EmptyValid(arr[..], hashF);
    }

    /** dime_table_grow: double the array, then relocate the old half from the
        top down. */
    method Grow()
      requires Shaped() && len == |Bag(arr[..])|
      modifies this, arr
      ensures Shaped() && Tight(arr[..]) && Reachable(arr[..])
      ensures cap == 2 * old(cap) && len == old(len) && nfree == cap - len == FreeCount(arr[..])
      ensures |Strays(arr[..], Below(cap))| <= ncollisions
      ensures Entries() == old(Entries()) && fresh(arr)
    {
      hide Mask, Probe, IsPow2, Relocated, Settled, Bag, Untouched, Strays, FreeCount, Reachable, Tight, Passing;
      var oldCap := cap;
      ghost var was := arr[..];
      SlotCount(arr[..]);
      Pow2Double(cap);
      var narr := new Slot<K, V>[2 * cap];
      forall j | 0 <= j < cap {
        narr[j] := arr[j];
      }
      arr := narr;
      cap := 2 * cap;
      ncollisions := 0;
      nfree := cap - len;
      for j := oldCap to cap
        modifies narr
        invariant narr[..oldCap] == was
        invariant forall p | oldCap <= p < j :: arr[p] == Free
      {
        arr[j] := Free;
      }
      ghost var s := arr[..];
      assert s == was + s[oldCap..];
      BagAppend(was, s[oldCap..]);
      PassStart(s, 0);
      ghost var P: set<nat>, G: set<nat> := {}, {};
      for i := oldCap downto 0
        modifies narr, `ncollisions
        invariant Passing(s, arr[..], P, ncollisions)
        invariant forall p: nat | i <= p < oldCap :: p in P
      {
        ghost var t, R, mc := arr[..], P, ncollisions;
        PassReady(s, t, R, mc);
        P, G := Relocate(i, P, {});
        PassStep(s, t, R, mc, i, arr[..], P, G, ncollisions);
      }
      PassDone(s, arr[..], P, ncollisions);
    }

    /** The rehash loop of insert: relocate every slot at the same capacity. */
    method Rehash()
      requires Shaped()
      modifies arr, `ncollisions
      ensures Tight(arr[..]) && Reachable(arr[..]) && Entries() == old(Entries())
      ensures FreeCount(arr[..]) + |Bag(arr[..])| == cap
      ensures |Strays(arr[..], Below(cap))| <= ncollisions
    {
      hide Mask, Probe, IsPow2, Relocated, Settled, Bag, Untouched, Strays, FreeCount, Reachable, Tight, Passing;
      ghost var s := arr[..];
      PassStart(s, ncollisions);
      ghost var P: set<nat>, G: set<nat> := {}, {};
      for i := 0 to cap
        modifies arr, `ncollisions
        invariant Passing(s, arr[..], P, ncollisions)
        invariant forall p: nat | p < i :: p in P
      {
        ghost var t, R, mc := arr[..], P, ncollisions;
        PassReady(s, t, R, mc);
        P, G := Relocate(i, P, {});
        PassStep(s, t, R, mc, i, arr[..], P, G, ncollisions);
      }
      PassDone(s, arr[..], P, ncollisions);
    }

    /** dime_table_insert. It stops at the first slot without an element, so a
        duplicate is refused exactly when the probes meet it before a
        tombstone - or at all, when the call grew the table first. */
    method Insert(key: K, val: V) returns (r: int)
      requires Valid()
      modifies this, arr
      ensures Valid() && (arr == old(arr) || fresh(arr))
      ensures r == 0 || r == -1
      ensures r == -1 <==>
              old(if 2 * len > cap then HasKey(Entries(), key) else MeetsKey(arr[..], hashF(key), key))
      ensures r == 0 ==> Entries() == old(Entries()) + multiset{Entry(hashF(key), key, val)}
      ensures r == -1 ==> Entries() == old(Entries())
      ensures MeetsKey(arr[..], hashF(key), key)
      ensures old(Tight(arr[..])) ==> Tight(arr[..])
    {
      hide Mask, Probe, IsPow2, Bag, Strays, Reachable, Tight, FreeCount, Hashed;
      hide HasKey, MeetsKey, OccupiedRun, KeyMissed;
      if 2 * len > cap {
        Grow();
        TightMeets(arr[..], hashF, key);
      }
      assert ValidSlots(arr[..], hashF, len, ncollisions, nfree);
      hide ValidSlots;
      ghost var s := arr[..];
      ValidFacts(s, hashF, len, ncollisions, nfree);
      var hash := hashF(key);
      var i: nat, k: nat := Mask(hash, cap), 1;
      ProbeStep(hash, 0, cap);
      RunStart(s, hash, key);
      while arr[i].Occupied?
        modifies {}
        invariant 1 <= k <= cap && i == Probe(hash, k - 1, cap)
        invariant OccupiedRun(s, hash, k - 1) && KeyMissed(s, hash, k - 1, key)
        decreases cap - k
      {
        OccupiedMore(s, hash, key, k - 1);
        if key == arr[i].e.key {
          assert arr[..] == s;
          return -1;
        }
        OccupiedRunBound(s, hash, k);
        ProbeStep(hash, k - 1, cap);
        i, k := Mask(i + k, cap), k + 1;
      }
      KeyNotMet(s, hash, key, k - 1);
      assert arr[..] == s;
      r := 0;
      Put(Entry(hash, key, val), i, k);
    }

    /** The second half of insert, once the probes have found slot i. */
    method Put(e: Entry<K, V>, i: nat, k: nat)
      requires Valid() && 2 * len <= cap && 1 <= k <= cap
      requires e.hash == hashF(e.key) && OccupiedRun(arr[..], e.hash, k - 1)
      requires i == Probe(e.hash, k - 1, cap) && !arr[i].Occupied?
      modifies this, arr
      ensures Valid() && (arr == old(arr) || fresh(arr))
      ensures Entries() == old(Entries()) + multiset{e}
      ensures MeetsKey(arr[..], e.hash, e.key)
      ensures old(Tight(arr[..])) ==> Tight(arr[..])
    {
      hide Mask, Probe, IsPow2, Bag, Strays, Reachable, Tight, FreeCount, OccupiedRun, Hashed, ValidSlots, Settling;
      hide MeetsKey, HasKey;
      ghost var s := arr[..];
      var prevuse := arr[i];
      ValidFacts(s, hashF, len, ncollisions, nfree);
      ValidPlace(s, hashF, len, ncollisions, nfree, e, k - 1, i);
      if Tight(s) {
        PlaceTight(s, e, k - 1, i);
      }
      arr[i] := Occupied(e);
      assert arr[..] == s[i := Occupied(e)];
      PlaceMeets(s, e, k - 1);
      Settle(k > 1, prevuse.Free?);
      if Tight(arr[..]) {
        ValidFacts(arr[..], hashF, len, ncollisions, nfree);
        TightMeets(arr[..], hashF, e.key);
        HasKeyOf(Entries(), e);
      }
    }

    /** The end of insert: count a collision, which may grow the table, and a
        slot that was FREE, which may rehash it. */
    method Settle(collided: bool, tookFree: bool)
      requires arr.Length == cap
      requires Settling(arr[..], hashF, len, ncollisions, nfree, collided, tookFree)
      modifies this, arr
      ensures Valid() && (arr == old(arr) || fresh(arr))
      ensures Entries() == old(Entries())
      ensures Tight(arr[..]) || arr[..] == old(arr[..])
    {
      hide Mask, Probe, IsPow2, Bag, Strays, Reachable, Tight, FreeCount, OccupiedRun, Hashed;
      ghost var s := arr[..];
      len := len + 1;
      if collided {
        ncollisions := ncollisions + 1;
        if ncollisions as real > MAX_OVERFLOW_FACTOR * len as real {
          Grow();
        }
      }
      if tookFree {
        nfree := nfree - 1;
        if 2 * nfree < cap {
          nfree := cap - len;
          Rehash();
        }
      }
    }

    /** dime_table_search: on the way to the key it remembers the first
        tombstone, and moves the element there. */
    method Search(key: K) returns (r: Option<V>)
      requires Valid()
      modifies arr, `ncollisions
      ensures Valid() && Entries() == old(Entries())
      ensures r.None? ==> !HasKey(Entries(), key)
      ensures r.Some? ==> Entry(hashF(key), key, r.value) in Entries()
      ensures r.Some? ==> MeetsKey(arr[..], hashF(key), key)
    {
      hide Mask, Probe, IsPow2, Bag, Strays, Reachable, FreeCount, HasKey, UsedRun, KeyMissed, Hashed, ValidSlots;
      hide OccupiedRun, MeetsKey;
      ValidFacts(arr[..], hashF, len, ncollisions, nfree);
      ghost var s := arr[..];
      var hash := hashF(key);
      var i: nat, k: nat := Mask(hash, cap), 1;
      var first, firstavail := i, -1;
      ProbeStep(hash, 0, cap);
      RunStart(s, hash, key);
      ghost var m: nat := 0;
      while !arr[i].Free?
        invariant arr[..] == s && ncollisions == old(ncollisions)
        invariant 1 <= k <= cap && i == Probe(hash, k - 1, cap)
        invariant UsedRun(s, hash, k - 1) && KeyMissed(s, hash, k - 1, key)
        invariant firstavail == -1 ||
                  (m < k - 1 && firstavail == Probe(hash, m, cap) && s[firstavail].Removed?)
        invariant OccupiedRun(s, hash, if firstavail == -1 then k - 1 else m)
        decreases cap - k
      {
        if arr[i].Occupied? {
          if key == arr[i].e.key {
            r := Some(arr[i].e.val);
            BagHas(s, i);
            HashedHas(s, i, hashF);
            SearchMeets(s, hash, key, if firstavail == -1 then k - 1 else m, k - 1);
            if firstavail != -1 {
              ValidMigrate(s, hashF, len, ncollisions, nfree, key, m, k - 1);
              arr[firstavail] := arr[i];
              arr[i] := Removed;
              assert arr[..] == Migrate(s, firstavail, i);
              if first == firstavail {
                ncollisions := ncollisions - 1;
              }
              i := firstavail;
            }
            return;
          }
        } else if firstavail == -1 {
          firstavail := i;
          m := k - 1;
        }
        RunMore(s, hash, k - 1);
        UsedMore(s, hash, key, k - 1);
        UsedRunBound(s, hash, k);
        ProbeStep(hash, k - 1, cap);
        i, k := Mask(i + k, cap), k + 1;
      }
      SearchMiss(s, hashF, key, k - 1);
      r := None;
    }

    /** dime_table_search_r: the same answer, without touching the table. */
    method SearchR(key: K) returns (r: Option<V>)
      requires Valid()
      ensures r.None? ==> !HasKey(Entries(), key)
      ensures r.Some? ==> Entry(hashF(key), key, r.value) in Entries()
    {
      hide Mask, Probe, IsPow2, Bag, Strays, Reachable, FreeCount, HasKey, UsedRun, KeyMissed, Hashed, ValidSlots;
      ValidFacts(arr[..], hashF, len, ncollisions, nfree);
      ghost var s := arr[..];
      var hash := hashF(key);
      var i: nat, k: nat := Mask(hash, cap), 1;
      ProbeStep(hash, 0, cap);
      RunStart(s, hash, key);
      while !arr[i].Free?
        invariant 1 <= k <= cap && i == Probe(hash, k - 1, cap)
        invariant UsedRun(s, hash, k - 1) && KeyMissed(s, hash, k - 1, key)
        decreases cap - k
      {
        if arr[i].Occupied? {
          if key == arr[i].e.key {
            BagHas(s, i);
            HashedHas(s, i, hashF);
            return Some(arr[i].e.val);
          }
        }
        UsedMore(s, hash, key, k - 1);
        UsedRunBound(s, hash, k);
        ProbeStep(hash, k - 1, cap);
        i, k := Mask(i + k, cap), k + 1;
      }
      SearchMiss(s, hashF, key, k - 1);
      r := None;
    }

    /** dime_table_remove. */
    method Remove(key: K) returns (r: Option<V>)
      requires Valid()
      modifies arr, `len
      ensures Valid()
      ensures r.None? ==> !HasKey(old(Entries()), key) && Entries() == old(Entries())
      ensures r.Some? ==> old(Entries()) == Entries() + multiset{Entry(hashF(key), key, r.value)}
      ensures r.Some? ==> exists i :: 0 <= i < cap && old(arr[i]) == Occupied(Entry(hashF(key), key, r.value)) &&
                                      arr[..] == old(arr[..])[i := Removed]
    {
      hide Mask, Probe, IsPow2, Bag, Strays, Reachable, FreeCount, HasKey, UsedRun, KeyMissed, Hashed, ValidSlots;
      ValidFacts(arr[..], hashF, len, ncollisions, nfree);
      ghost var s := arr[..];
      var hash := hashF(key);
      var i: nat, k: nat := Mask(hash, cap), 1;
      ProbeStep(hash, 0, cap);
      RunStart(s, hash, key);
      while !arr[i].Free?
        invariant arr[..] == s && len == old(len)
        invariant 1 <= k <= cap && i == Probe(hash, k - 1, cap)
        invariant UsedRun(s, hash, k - 1) && KeyMissed(s, hash, k - 1, key)
        decreases cap - k
      {
        if arr[i].Occupied? {
          if key == arr[i].e.key {
            var val := arr[i].e.val;
            ValidRemove(s, hashF, len, ncollisions, nfree, i);
            arr[i] := Removed;
            assert arr[..] == s[i := Removed];
            len := len - 1;
            return Some(val);
          }
        }
        UsedMore(s, hash, key, k - 1);
        UsedRunBound(s, hash, k);
        ProbeStep(hash, k - 1, cap);
        i, k := Mask(i + k, cap), k + 1;
      }
      SearchMiss(s, hashF, key, k - 1);
      r := None;
    }
  }

  /** dime_table_iter_t: the index of the current element, from -1. */
  class TableIter<K(==), V> {
    const tbl: Table<K, V>
    var i: int
    var current: Slot<K, V>

    constructor (tbl: Table<K, V>)
      ensures this.tbl == tbl && i == -1
    {
      this.tbl := tbl;
      i := -1;
      current := Free;
    }

    /** dime_table_iter_next. */
    method Next() returns (more: bool)
      requires tbl.arr.Length == tbl.cap && -1 <= i < tbl.cap
      modifies this
      ensures old(i) < i <= tbl.cap && (more <==> i < tbl.cap)
      ensures more ==> current.Occupied?
      ensures more ==> EntriesFrom(tbl.arr[..], old(i) + 1) == [current.e] + EntriesFrom(tbl.arr[..], i + 1)
      ensures !more ==> EntriesFrom(tbl.arr[..], old(i) + 1) == []
    {
      i := i + 1;
      while i < tbl.cap && !tbl.arr[i].Occupied?
        invariant old(i) < i <= tbl.cap
        invariant forall k | old(i) < k < i :: !tbl.arr[k].Occupied?
      {
        i := i + 1;
      }
      EntriesSkip(tbl.arr[..], old(i) + 1, i);
      if i == tbl.cap {
        return false;
      }
      current := tbl.arr[i];
      return true;
    }
  }

  /** A complete iteration, as broadcast, handshake and devices run it, meets
      every entry exactly once. */
  method Iterate<K(==), V>(tbl: Table<K, V>) returns (all: seq<Entry<K, V>>)
    requires tbl.Valid()
    ensures multiset(all) == tbl.Entries()
  {
    hide EntriesFrom, Bag, ValidSlots;
    var it := new TableIter(tbl);
    ghost var s := tbl.arr[..];
    all := [];
    EntriesAll(s);
    while true
      invariant it.tbl == tbl && -1 <= it.i < tbl.cap && fresh(it)
      invariant all + EntriesFrom(s, it.i + 1) == EntriesFrom(s, 0)
      decreases tbl.cap - it.i
    {
      var more := it.Next();
      if !more {
        break;
      }
      all := all + [it.current.e];
    }
  }

  // ------------------------------------------------------ runs

  datatype Op<K, V> = OpInsert(key: K, val: V) | OpSearch(key: K) | OpSearchR(key: K) | OpRemove(key: K)

  datatype Answer<V> = Inserted(r: int) | Found(v: Option<V>)

  function Lookup<K, V>(m: map<K, V>, key: K): Option<V> {
    if key in m then Some(m[key]) else None
  }

  /** The same operation on a finite map. */
  function MapStep<K, V>(m: map<K, V>, op: Op<K, V>): (map<K, V>, Answer<V>) {
    match op
    case OpInsert(key, val) => (m[key := val], Inserted(0))
    case OpSearch(key) => (m, Found(Lookup(m, key)))
    case OpSearchR(key) => (m, Found(Lookup(m, key)))
    case OpRemove(key) => (m - {key}, Found(Lookup(m, key)))
  }

  function MapRun<K, V>(m: map<K, V>, ops: seq<Op<K, V>>): (map<K, V>, seq<Answer<V>>)
    decreases |ops|
  {
    if ops == [] then (m, [])
    else
      var (m1, a) := MapStep(m, ops[0]);
      var (m2, rest) := MapRun(m1, ops[1..]);
      (m2, [a] + rest)
  }

  /** Every key is absent when it is inserted, as the callers make sure. */
  predicate FreshInserts<K, V>(m: map<K, V>, ops: seq<Op<K, V>>)
    decreases |ops|
  {
    ops == [] ||
    ((ops[0].OpInsert? ==> ops[0].key !in m) && FreshInserts(MapStep(m, ops[0]).0, ops[1..]))
  }

  /** Over any run the table answers as the finite map does, and ends holding
      exactly that map. */
  method Replay<K(==, !new), V(!new)>(t: Table<K, V>, ops: seq<Op<K, V>>, ghost m: map<K, V>)
    returns (answers: seq<Answer<V>>)
    requires t.Valid() && Represents(t.Entries(), t.hashF, m) && FreshInserts(m, ops)
    modifies t, t.arr
    ensures t.Valid() && Represents(t.Entries(), t.hashF, MapRun(m, ops).0)
    ensures answers == MapRun(m, ops).1
    ensures t.len == |MapRun(m, ops).0|
  {
    hide Represents, HasKey, ValidSlots, Bag, MeetsKey;
    answers := [];
    ghost var cur := m;
    var i := 0;
    while i < |ops|
      invariant 0 <= i <= |ops| && (t.arr == old(t.arr) || fresh(t.arr))
      invariant t.Valid() && Represents(t.Entries(), t.hashF, cur)
      invariant FreshInserts(cur, ops[i..])
      invariant MapRun(m, ops).0 == MapRun(cur, ops[i..]).0
      invariant MapRun(m, ops).1 == answers + MapRun(cur, ops[i..]).1
    {
      assert ops[i..][0] == ops[i] && ops[i..][1..] == ops[i + 1..];
      var a: Answer<V>;
      ghost var next;
      a, next := Execute(t, ops[i], cur);
      answers := answers + [a];
      cur := next;
      i := i + 1;
    }
    RepresentsSize(t.Entries(), t.hashF, cur);
    LenExact(t);
  }

  /** One operation of a run. */
  method Execute<K(==, !new), V(!new)>(t: Table<K, V>, op: Op<K, V>, ghost m: map<K, V>)
    returns (a: Answer<V>, ghost next: map<K, V>)
    requires t.Valid() && Represents(t.Entries(), t.hashF, m) && (op.OpInsert? ==> op.key !in m)
    modifies t, t.arr
    ensures t.Valid() && (t.arr == old(t.arr) || fresh(t.arr))
    ensures (next, a) == MapStep(m, op) && Represents(t.Entries(), t.hashF, next)
  {
    hide Represents, HasKey, ValidSlots, Bag, MeetsKey;
    ghost var bag := t.Entries();
    RepresentsHas(bag, t.hashF, m, op.key);
    match op {
      case OpInsert(key, val) =>
        MeetsImpliesHas(t.arr[..], t.hashF(key), key);
        RepresentsInsert(bag, t.hashF, m, key, val);
        var r := t.Insert(key, val);
        a := Inserted(r);
      case OpSearch(key) =>
        var v := t.Search(key);
        RepresentsAnswer(bag, t.hashF, m, key, v);
        a := Found(v);
      case OpSearchR(key) =>
        var v := t.SearchR(key);
        RepresentsAnswer(bag, t.hashF, m, key, v);
        a := Found(v);
      case OpRemove(key) =>
        var v := t.Remove(key);
        if v.Some? {
          RepresentsRemove(bag, t.Entries(), t.hashF, m, key, v.value);
        } else {
          assert m - {key} == m;
        }
        a := Found(v);
    }
    next := MapStep(m, op).0;
  }

  /** The discipline of the callers: after a search for the key, insert refuses
      it if and only if it is stored. */
  method SearchThenInsert<K(==), V>(t: Table<K, V>, key: K, val: V) returns (r: int)
    requires t.Valid()
    modifies t, t.arr
    ensures t.Valid() && (r == 0 || r == -1) && (r == -1 <==> HasKey(old(t.Entries()), key))
    ensures r == 0 ==> t.Entries() == old(t.Entries()) + multiset{Entry(t.hashF(key), key, val)}
    ensures r == -1 ==> t.Entries() == old(t.Entries())
  {
    hide Bag, MeetsKey, HasKey, ValidSlots, Tight;
    var v := t.Search(key);
    MeetsImpliesHas(t.arr[..], t.hashF(key), key);
    r := t.Insert(key, val);
  }

  /** A fresh table answers as the empty map does, and goes on as one. */
  method ReplayFresh<K(==, !new), V(!new)>(hashF: K -> nat, ops: seq<Op<K, V>>)
    returns (t: Table<K, V>, answers: seq<Answer<V>>)
    requires FreshInserts(map[], ops)
    ensures fresh(t) && t.Valid() && Represents(t.Entries(), hashF, MapRun(map[], ops).0)
    ensures answers == MapRun(map[], ops).1 && t.len == |MapRun(map[], ops).0|
  {
    hide Represents;
    t := new Table(hashF);
    RepresentsEmpty<K, V>(hashF);
    answers := Replay(t, ops, map[]);
  }

  /** Any two keys of equal hash: insert both into a fresh table, remove the one
      in their home slot, and insert the other again. It is accepted, and then
      stored twice. */
  method StoreTwice<K(==), V>(hashF: K -> nat, a: K, b: K, val: V) returns (t: Table<K, V>, key: K, r: int)
    requires a != b && hashF(a) == hashF(b)
    ensures t.Valid() && t.hashF == hashF && r == 0 && (key == a || key == b)
    ensures t.Entries() == multiset{Entry(hashF(key), key, val), Entry(hashF(key), key, val)}
  {
    hide Bag, Tight, MeetsKey, HasKey;
    t := StoreBoth(hashF, a, b, val);
    key := RemoveHome(t, a, b, val);
    LenExact(t);
    r := t.Insert(key, val);
  }

  method StoreBoth<K(==), V>(hashF: K -> nat, a: K, b: K, val: V) returns (t: Table<K, V>)
    requires a != b && hashF(a) == hashF(b)
    ensures fresh(t) && fresh(t.arr) && t.Valid() && t.hashF == hashF && Tight(t.arr[..])
    ensures t.Entries() == multiset{Entry(hashF(a), a, val), Entry(hashF(b), b, val)}
  {
    hide Bag, Tight, MeetsKey, HasKey, ValidSlots;
    t := new Table(hashF);
    NewKey(t.arr[..], hashF(a), a);
    var r := t.Insert(a, val);
    NewKey(t.arr[..], hashF(b), b);
    r := t.Insert(b, val);
  }

  /** Remove the one of two keys that stands in the home slot of both. */
  method RemoveHome<K(==), V>(t: Table<K, V>, a: K, b: K, val: V) returns (key: K)
    requires t.Valid() && Tight(t.arr[..]) && a != b && t.hashF(a) == t.hashF(b)
    requires t.Entries() == multiset{Entry(t.hashF(a), a, val), Entry(t.hashF(b), b, val)}
    modifies t, t.arr
    ensures t.Valid() && t.arr == old(t.arr) && (key == a || key == b)
    ensures t.Entries() == multiset{Entry(t.hashF(key), key, val)} && !MeetsKey(t.arr[..], t.hashF(key), key)
  {
    hide Mask, Probe, IsPow2, Bag, Tight, MeetsKey, HasKey, ValidSlots;
    ghost var s, h := t.arr[..], t.hashF(a);
    ValidFacts(s, t.hashF, t.len, t.ncollisions, t.nfree);
    TightHome(s, Entry(h, a, val));
    ProbeHome(h, 0, t.cap);
    var gone := t.arr[Mask(t.hashF(a), t.cap)].e.key;
    key := if gone == a then b else a;
    ghost var x := Entry(h, gone, val);
    HasKeyOf(t.Entries(), x);
    var v := t.Remove(gone);
    ghost var i: nat :| i < t.cap && s[i] == Occupied(Entry(h, gone, v.value)) && t.arr[..] == s[i := Removed];
    assert Entry(h, gone, v.value) in Bag(s);
    TombstoneHides(s, i, x, h, key);
  }

  lemma HasKeyOf<K, V>(bag: multiset<Entry<K, V>>, e: Entry<K, V>)
    requires e in bag
    ensures HasKey(bag, e.key)
  {
  }

  lemma NewKey<K, V>(s: seq<Slot<K, V>>, hash: nat, key: K)
    requires forall e | e in Bag(s) :: e.key != key
    ensures !HasKey(Bag(s), key) && !MeetsKey(s, hash, key)
  {
    MeetsImpliesHas(s, hash, key);
  }

  lemma LenExact<K, V>(t: Table<K, V>)
    requires t.Valid()
    ensures t.len == |t.Entries()|
  {
  }

  /** Whatever search or search_r may answer is the map's value for the key. */
  lemma RepresentsAnswer<K(!new), V(!new)>(bag: multiset<Entry<K, V>>, hashF: K -> nat, m: map<K, V>, key: K,
                                           r: Option<V>)
    requires Represents(bag, hashF, m)
    requires r.None? ==> !HasKey(bag, key)
    requires r.Some? ==> Entry(hashF(key), key, r.value) in bag
    ensures r == Lookup(m, key)
  {
    RepresentsHas(bag, hashF, m, key);
  }

  /** Maximum ratio of collisions to elements. */
  const MAX_OVERFLOW_FACTOR: real := 0.20225424859373685602
}
