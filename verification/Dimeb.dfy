// The dimeb codec of client/python/dime/dimeb.py: a recursive, self-delimiting
// binary format for nested Python values.

module Dimeb {
  import opened Wrappers
  import opened Sequences
  import opened Bytes

  /** Python values as the codec sees them. Text is its UTF-8 bytes; floats,
      complex numbers and matrix items are their big-endian bytes; matrix data
      is in column-major order; `Other` is any object dumps rejects. */
  datatype Value =
    | Null
    | True
    | False
    | Int(n: int)
    | Float(bits: seq<byte>)
    | Complex(bits: seq<byte>)
    | Mat(item: nat, shape: seq<nat>, data: seq<byte>)
    | Str(utf8: seq<byte>)
    | List(elems: seq<Value>)
    | Tuple(elems: seq<Value>)
    | Dict(entries: seq<Entry>)
    | Other

  datatype Entry = Entry(key: Value, val: Value)

  const TYPE_NULL: byte := 0x00
  const TYPE_TRUE: byte := 0x01
  const TYPE_FALSE: byte := 0x02
  const TYPE_I8: byte := 0x03
  const TYPE_I64: byte := 0x06
  const TYPE_U8: byte := 0x07
  const TYPE_U64: byte := 0x0A
  const TYPE_SINGLE: byte := 0x0B
  const TYPE_DOUBLE: byte := 0x0C
  const TYPE_COMPLEX_DOUBLE: byte := 0x0E
  const TYPE_MAT: byte := 0x10
  const TYPE_STRING: byte := 0x20
  const TYPE_ARRAY: byte := 0x21
  const TYPE_ASSOCARRAY: byte := 0x22

  /** Bytes of one item of scalar type `item`; 0 for no scalar type. */
  function ItemSize(item: nat): nat {
    match item
    case 0x03 => 1 case 0x04 => 2 case 0x05 => 4 case 0x06 => 8
    case 0x07 => 1 case 0x08 => 2 case 0x09 => 4 case 0x0A => 8
    case 0x0B => 4 case 0x0C => 8 case 0x0D => 8 case 0x0E => 16
    case _ => 0
  }

  function Product(shape: seq<nat>): nat {
    if shape == [] then 1 else shape[0] * Product(shape[1..])
  }

  // ------------------------------------------------------------ dumps

  function DimBytes(shape: seq<nat>): seq<byte> {
    if shape == [] then [] else ToBE(shape[0], 4) + DimBytes(shape[1..])
  }

  predicate DimsFit(shape: seq<nat>) {
    forall i | 0 <= i < |shape| :: shape[i] < TWO32
  }

  /** dumps; None is an exception: an integer beyond 64 bits, a length or
      dimension beyond 32 bits, a rank beyond 255, or an unsupported object. */
  function Dumps(x: Value): Option<seq<byte>>
    decreases x, 0
  {
    match x
    case Null => Some([TYPE_NULL])
    case True => Some([TYPE_TRUE])
    case False => Some([TYPE_FALSE])
    case Int(n) =>
      if -TWO63 <= n < TWO63 then Some([TYPE_I64] + ToBE(if n < 0 then n + TWO64 else n, 8)) else None
    case Float(bits) => if |bits| == 8 then Some([TYPE_DOUBLE] + bits) else None
    case Complex(bits) => if |bits| == 16 then Some([TYPE_COMPLEX_DOUBLE] + bits) else None
    case Mat(item, shape, data) =>
      if ItemSize(item) > 0 && |shape| < 256 && DimsFit(shape) && |data| == Product(shape) * ItemSize(item) then
        Some([TYPE_MAT + item, |shape|] + DimBytes(shape) + data)
      else None
    case Str(utf8) => if |utf8| < TWO32 then Some([TYPE_STRING] + ToBE(|utf8|, 4) + utf8) else None
    case List(elems) => DumpsSequence(elems, DumpsAll(elems))
    case Tuple(elems) => DumpsSequence(elems, DumpsAll(elems))
    case Dict(entries) =>
      var body := DumpsEntries(entries);
      if body.Some? && |entries| < TWO32 then Some([TYPE_ASSOCARRAY] + ToBE(|entries|, 4) + body.value) else None
    case Other => None
  }

  function DumpsSequence(elems: seq<Value>, body: Option<seq<byte>>): Option<seq<byte>> {
    if body.Some? && |elems| < TWO32 then Some([TYPE_ARRAY] + ToBE(|elems|, 4) + body.value) else None
  }

  function Append(a: Option<seq<byte>>, b: Option<seq<byte>>): Option<seq<byte>> {
    if a.Some? && b.Some? then Some(a.value + b.value) else None
  }

  function DumpsAll(xs: seq<Value>): Option<seq<byte>>
    decreases xs, 1
  {
    if xs == [] then Some([]) else Append(Dumps(xs[0]), DumpsAll(xs[1..]))
  }

  function DumpsEntries(es: seq<Entry>): Option<seq<byte>>
    decreases es, 1
  {
    if es == [] then Some([])
    else Append(DumpsEntry(es[0]), DumpsEntries(es[1..]))
  }

  function DumpsEntry(e: Entry): Option<seq<byte>>
    decreases e, 1
  {
    Append(Dumps(e.key), Dumps(e.val))
  }

  // ------------------------------------------------------------ loads

  /** Python's s[i:]. */
  function Drop(s: seq<byte>, i: nat): (t: seq<byte>)
    ensures |t| <= |s| && (i > 0 && s != [] ==> |t| < |s|)
  {
    if i <= |s| then s[i..] else []
  }

  function Take(s: seq<byte>, i: nat): seq<byte> {
    if i <= |s| then s[..i] else s
  }

  function Signed(v: nat, w: nat): int {
    if 2 * v >= Pow256(w) then v - Pow256(w) else v
  }

  /** What a loader answers: the value and the number of bytes it took. */
  type Loaded = Option<(Value, nat)>

  function LoadsInt(s: seq<byte>, w: nat, signed: bool): Loaded {
    if |s| < 1 + w then None
    else
      var v := FromBE(s[1..1 + w]);
      Some((Int(if signed then Signed(v, w) else v), 1 + w))
  }

  function Dims(s: seq<byte>, rank: nat): seq<nat>
    requires |s| >= 4 * rank
  {
    if rank == 0 then [] else [FromBE(s[..4])] + Dims(s[4..], rank - 1)
  }

  /** A unit dimension of a two-dimensional array is dropped. */
  function Squeezed(shape: seq<nat>): seq<nat> {
    if |shape| == 2 then
      if shape[0] == 1 then [shape[1]] else if shape[1] == 1 then [shape[0]] else shape
    else shape
  }

  /** loads_mat. For rank 0 the item count is a float, which frombuffer
      refuses. */
  function LoadsMat(s: seq<byte>, item: nat): Loaded {
    if |s| < 2 then None
    else
      var rank: nat := s[1];
      var offset := 4 * rank + 2;
      if |s| < offset || rank == 0 then None
      else
        var shape := Dims(s[2..], rank);
        var size := Product(shape) * ItemSize(item);
        if |s| < offset + size then None
        else Some((Mat(item, Squeezed(shape), s[offset..offset + size]), size + offset))
  }

  /** _loads; None is an exception. */
  function Loads(s: seq<byte>): Loaded
    decreases |s|, 0
  {
    if s == [] then None
    else
      var code := s[0];
      if code == TYPE_NULL then Some((Null, 1))
      else if code == TYPE_TRUE then Some((True, 1))
      else if code == TYPE_FALSE then Some((False, 1))
      else if TYPE_I8 <= code <= TYPE_I64 then LoadsInt(s, ItemSize(code), true)
      else if TYPE_U8 <= code <= TYPE_U64 then LoadsInt(s, ItemSize(code), false)
      else if TYPE_SINGLE <= code <= TYPE_COMPLEX_DOUBLE then
        var w := ItemSize(code);
        if |s| < 1 + w then None
        else if code <= TYPE_DOUBLE then Some((Float(s[1..1 + w]), 1 + w))
        else Some((Complex(s[1..1 + w]), 1 + w))
      else if TYPE_MAT + TYPE_I8 <= code <= TYPE_MAT + TYPE_COMPLEX_DOUBLE then LoadsMat(s, code - TYPE_MAT)
      else if code == TYPE_STRING then
        if |s| < 5 then None
        else
          var siz := FromBE(s[1..5]);
          Some((Str(Take(s[5..], siz)), siz + 5))
      else if code == TYPE_ARRAY then
        if |s| < 5 then None
        else
          var r := LoadsElems(s[5..], FromBE(s[1..5]));
          if r.None? then None else Some((List(r.value.0), 5 + r.value.1))
      else if code == TYPE_ASSOCARRAY then
        if |s| < 5 then None
        else
          var r := LoadsEntries(s[5..], FromBE(s[1..5]), []);
          if r.None? then None else Some((Dict(r.value.0), 5 + r.value.1))
      else None
  }

  /** The loop of loads_array: n more elements from the front of s. */
  function LoadsElems(s: seq<byte>, n: nat): Option<(seq<Value>, nat)>
    decreases |s|, n + 1
  {
    if n == 0 then Some(([], 0))
    else
      var e := Loads(s);
      if e.None? then None
      else
        var r := LoadsElems(Drop(s, e.value.1), n - 1);
        if r.None? then None else Some(([e.value.0] + r.value.0, e.value.1 + r.value.1))
  }

  /** Keys a Python dict accepts, among the values loads can yield. */
  predicate Hashable(key: Value) {
    !key.Mat? && !key.List? && !key.Dict?
  }

  /** A part of a number, as Python compares it: exactly. */
  datatype Num = Finite(r: real) | Infinite(negative: bool) | NaN

  function Power2(e: int): (r: real)
    decreases if e < 0 then -e else e
  {
    if e == 0 then 1.0 else if e > 0 then 2.0 * Power2(e - 1) else Power2(e + 1) / 2.0
  }

  /** An IEEE 754 number of 4 or 8 bytes, with w bits of fraction. */
  function Ieee(bits: seq<byte>): Num {
    var (w, size, bias) := if |bits| == 4 then (23, 0x80_0000, 127) else (52, 0x10_0000_0000_0000, 1023);
    var n := FromBE(bits);
    var fraction, top := n % size, n / size;
    var exponent, negative := top % (2 * bias + 2), top >= 2 * bias + 2;
    if exponent == 2 * bias + 1 then if fraction == 0 then Infinite(negative) else NaN
    else
      var r := if exponent == 0 then fraction as real * Power2(1 - bias - w)
               else (size + fraction) as real * Power2(exponent - bias - w);
      Finite(if negative then -r else r)
  }

  /** Real and imaginary part of a key that is a number. */
  function Number(x: Value): Option<(Num, Num)> {
    match x
    case True => Some((Finite(1.0), Finite(0.0)))
    case False => Some((Finite(0.0), Finite(0.0)))
    case Int(n) => Some((Finite(n as real), Finite(0.0)))
    case Float(bits) => Some((Ieee(bits), Finite(0.0)))
    case Complex(bits) => Some((Ieee(bits[..|bits| / 2]), Ieee(bits[|bits| / 2..])))
    case _ => None
  }

  /** Keys a Python dict does not tell apart: True, 1 and 1.0, for instance. A
      NaN equals nothing. */
  predicate SameKey(a: Value, b: Value) {
    var m, n := Number(a), Number(b);
    if m.Some? && n.Some? then m == n && !m.value.0.NaN? && !m.value.1.NaN? else a == b
  }

  /** ret[key] = val; an equal key that is there stays. */
  function Put(entries: seq<Entry>, key: Value, val: Value): seq<Entry> {
    if entries == [] then [Entry(key, val)]
    else if SameKey(entries[0].key, key) then [Entry(entries[0].key, val)] + entries[1..]
    else [entries[0]] + Put(entries[1..], key, val)
  }

  /** The loop of loads_assocarray. */
  function LoadsEntries(s: seq<byte>, n: nat, ret: seq<Entry>): Option<(seq<Entry>, nat)>
    decreases |s|, n + 1
  {
    if n == 0 then Some((ret, 0))
    else
      var k := Loads(s);
      if k.None? then None
      else
        var t := Drop(s, k.value.1);
        var v := Loads(t);
        if v.None? || !Hashable(k.value.0) then None
        else
          var r := LoadsEntries(Drop(t, v.value.1), n - 1, Put(ret, k.value.0, v.value.0));
          if r.None? then None else Some((r.value.0, k.value.1 + v.value.1 + r.value.1))
  }

  // ------------------------------------------------------------ what comes back

  /** Tuples become lists, and two-dimensional arrays lose a unit dimension. */
  function Norm(x: Value): Value
    decreases x, 0
  {
    match x
    case Mat(item, shape, data) => Mat(item, Squeezed(shape), data)
    case List(elems) => List(NormAll(elems))
    case Tuple(elems) => List(NormAll(elems))
    case Dict(entries) => Dict(NormEntries(entries))
    case _ => x
  }

  function NormAll(xs: seq<Value>): (ys: seq<Value>)
    ensures |ys| == |xs|
    decreases xs, 1
  {
    if xs == [] then [] else [Norm(xs[0])] + NormAll(xs[1..])
  }

  function NormEntries(es: seq<Entry>): (fs: seq<Entry>)
    ensures |fs| == |es|
    decreases es, 1
  {
    if es == [] then [] else [NormEntry(es[0])] + NormEntries(es[1..])
  }

  function NormEntry(e: Entry): Entry
    decreases e, 1
  {
    Entry(Norm(e.key), Norm(e.val))
  }

  /** A condition on the value alone: no array of rank 0, and no dict key that
      is a tuple (or another container), at any depth. */
  predicate Recoverable(x: Value)
    decreases x, 0
  {
    match x
    case Mat(item, shape, data) => shape != []
    case List(elems) => AllRecoverable(elems)
    case Tuple(elems) => AllRecoverable(elems)
    case Dict(entries) => EntriesRecoverable(entries)
    case _ => true
  }

  predicate AllRecoverable(xs: seq<Value>)
    decreases xs, 1
  {
    xs == [] || (Recoverable(xs[0]) && AllRecoverable(xs[1..]))
  }

  predicate EntriesRecoverable(es: seq<Entry>)
    decreases es, 1
  {
    es == [] || (EntryRecoverable(es[0]) && EntriesRecoverable(es[1..]))
  }

  predicate EntryRecoverable(e: Entry)
    decreases e, 1
  {
    ScalarKey(e.key) && Recoverable(e.val)
  }

  predicate ScalarKey(key: Value) {
    !key.Mat? && !key.List? && !key.Dict? && !key.Tuple?
  }

  /** A Python mapping: its keys are pairwise different to a dict, at every
      depth. */
  predicate Proper(x: Value)
    decreases x, 0
  {
    match x
    case List(elems) => AllProper(elems)
    case Tuple(elems) => AllProper(elems)
    case Dict(entries) => EntriesProper(entries)
    case _ => true
  }

  predicate AllProper(xs: seq<Value>)
    decreases xs, 1
  {
    xs == [] || (Proper(xs[0]) && AllProper(xs[1..]))
  }

  predicate EntriesProper(es: seq<Entry>)
    decreases es, 1
  {
    es == [] ||
    (EntryProper(es[0]) && EntriesProper(es[1..]) && forall i | 1 <= i < |es| :: !SameKey(es[0].key, es[i].key))
  }

  predicate EntryProper(e: Entry)
    decreases e, 1
  {
    Proper(e.key) && Proper(e.val)
  }

  // ------------------------------------------------------------ scalars

  lemma TagIs(tag: byte, body: seq<byte>, r: seq<byte>)
    ensures var u := [tag] + body + r;
            u[0] == tag && |u| >= 1 + |body| && u[1..1 + |body|] == body && u[1 + |body|..] == r
  {
  }

  lemma IntBack(n: int, r: seq<byte>)
    requires -TWO63 <= n < TWO63
    ensures Loads([TYPE_I64] + ToBE(if n < 0 then n + TWO64 else n, 8) + r) == Some((Int(n), 9))
  {
    var m: nat := if n < 0 then n + TWO64 else n;
    Pow256Values();
    hide Pow256;
    FromToBE(m, 8);
    TagIs(TYPE_I64, ToBE(m, 8), r);
    hide ToBE, FromBE;
    var u := [TYPE_I64] + ToBE(m, 8) + r;
    assert Loads(u) == LoadsInt(u, 8, true);
  }

  lemma BitsBack(bits: seq<byte>, r: seq<byte>)
    ensures |bits| == 8 ==> Loads([TYPE_DOUBLE] + bits + r) == Some((Float(bits), 9))
    ensures |bits| == 16 ==> Loads([TYPE_COMPLEX_DOUBLE] + bits + r) == Some((Complex(bits), 17))
  {
    TagIs(TYPE_DOUBLE, bits, r);
    TagIs(TYPE_COMPLEX_DOUBLE, bits, r);
  }

  lemma StrBack(utf8: seq<byte>, r: seq<byte>)
    requires |utf8| < TWO32
    ensures Loads([TYPE_STRING] + ToBE(|utf8|, 4) + utf8 + r) == Some((Str(utf8), 5 + |utf8|))
  {
    CountBack(TYPE_STRING, |utf8|, utf8, r);
    hide ToBE, FromBE;
    assert Take(utf8 + r, |utf8|) == utf8;
  }

  // ------------------------------------------------------------ matrices

  lemma {:induction false} DimsBack(shape: seq<nat>, r: seq<byte>)
    requires DimsFit(shape)
    ensures |DimBytes(shape)| == 4 * |shape| && Dims(DimBytes(shape) + r, |shape|) == shape
  {
    if shape != [] {
      Pow256Values();
      FromToBE(shape[0], 4);
      hide Pow256, ToBE, FromBE;
      DimsBack(shape[1..], r);
      var u := DimBytes(shape) + r;
      assert u[..4] == ToBE(shape[0], 4) && u[4..] == DimBytes(shape[1..]) + r;
    } else {
      assert DimBytes(shape) + r == r;
    }
  }

  lemma MatBack(item: nat, shape: seq<nat>, data: seq<byte>, r: seq<byte>)
    requires ItemSize(item) > 0 && |shape| < 256 && DimsFit(shape) && |data| == Product(shape) * ItemSize(item)
    ensures var bs := [TYPE_MAT + item, |shape|] + DimBytes(shape) + data;
            Loads(bs + r) == if shape == [] then None else Some((Mat(item, Squeezed(shape), data), |bs|))
  {
    var u := [TYPE_MAT + item, |shape|] + DimBytes(shape) + data + r;
    DimsBack(shape, data + r);
    hide DimBytes, Dims, Product, FromBE;
    var offset := 4 * |shape| + 2;
    assert u[2..] == DimBytes(shape) + (data + r);
    assert u[offset..offset + |data|] == data;
    assert Loads(u) == LoadsMat(u, item);
  }

  // ------------------------------------------------------------ containers

  /** What loading an encoding must answer. */
  function Expected(x: Value, size: nat): Loaded {
    if Recoverable(x) then Some((Norm(x), size)) else None
  }

  lemma CountBack(tag: byte, n: nat, body: seq<byte>, r: seq<byte>)
    requires n < TWO32
    ensures var u := [tag] + ToBE(n, 4) + body + r;
            u[0] == tag && |u| >= 5 && FromBE(u[1..5]) == n && u[5..] == body + r
  {
    Pow256Values();
    hide Pow256;
    FromToBE(n, 4);
    hide ToBE, FromBE;
    var u := [tag] + ToBE(n, 4) + body + r;
    assert u[1..5] == ToBE(n, 4);
  }

  /** A scalar key is its own normal form. */
  lemma ScalarNorm(key: Value)
    requires ScalarKey(key)
    ensures Norm(key) == key && Recoverable(key) && Hashable(key)
  {
  }

  lemma {:induction false} PutNew(ret: seq<Entry>, key: Value, val: Value)
    requires forall i | 0 <= i < |ret| :: !SameKey(ret[i].key, key)
    ensures Put(ret, key, val) == ret + [Entry(key, val)]
  {
    if ret != [] {
      PutNew(ret[1..], key, val);
    }
  }

  lemma DropAppend(a: seq<byte>, b: seq<byte>)
    ensures Drop(a + b, |a|) == b
  {
  }

  /** Round trip. For every value that dumps encodes, and whatever bytes follow,
      loads gives back the normal form and consumes exactly the encoding - if
      and only if the value is recoverable; otherwise it fails. */
  lemma {:induction false} RoundTrip(x: Value, r: seq<byte>)
    requires Proper(x) && Dumps(x).Some?
    ensures Loads(Dumps(x).value + r) == Expected(x, |Dumps(x).value|)
    decreases x, 1
  {
    if x.Null? || x.True? || x.False? {
      return;
    }
    hide Loads, ToBE, DumpsAll, DumpsEntries, NormAll, NormEntries;
    hide AllRecoverable, EntriesRecoverable, AllProper, EntriesProper;
    match x {
      case Null =>
      case True =>
      case False =>
      case Int(n) => IntBack(n, r);
      case Float(bits) => BitsBack(bits, r);
      case Complex(bits) => BitsBack(bits, r);
      case Mat(item, shape, data) => MatBack(item, shape, data, r);
      case Str(utf8) => StrBack(utf8, r);
      case List(elems) => SequenceBack(elems, r);
      case Tuple(elems) => SequenceBack(elems, r);
      case Dict(entries) => DictBack(entries, r);
    }
  }

  lemma {:induction false} DictBack(entries: seq<Entry>, r: seq<byte>)
    requires EntriesProper(entries) && DumpsEntries(entries).Some? && |entries| < TWO32
    ensures var bs := [TYPE_ASSOCARRAY] + ToBE(|entries|, 4) + DumpsEntries(entries).value;
            Loads(bs + r) == if EntriesRecoverable(entries) then Some((Dict(NormEntries(entries)), |bs|)) else None
    decreases entries, 3
  {
    var body := DumpsEntries(entries).value;
    CountBack(TYPE_ASSOCARRAY, |entries|, body, r);
    EntriesBack(entries, r, []);
    assert [] + NormEntries(entries) == NormEntries(entries);
    hide ToBE, FromBE, DumpsEntries, NormEntries, EntriesRecoverable, EntriesProper, LoadsEntries;
  }

  lemma {:induction false} SequenceBack(elems: seq<Value>, r: seq<byte>)
    requires AllProper(elems) && DumpsAll(elems).Some? && |elems| < TWO32
    ensures var bs := DumpsSequence(elems, DumpsAll(elems)).value;
            Loads(bs + r) == if AllRecoverable(elems) then Some((List(NormAll(elems)), |bs|)) else None
    decreases elems, 3
  {
    var body := DumpsAll(elems).value;
    CountBack(TYPE_ARRAY, |elems|, body, r);
    ElemsBack(elems, r);
    hide ToBE, FromBE, DumpsAll, NormAll, AllRecoverable, AllProper, LoadsElems;
  }

  lemma {:induction false} ElemsBack(xs: seq<Value>, r: seq<byte>)
    requires AllProper(xs) && DumpsAll(xs).Some?
    ensures LoadsElems(DumpsAll(xs).value + r, |xs|) ==
            if AllRecoverable(xs) then Some((NormAll(xs), |DumpsAll(xs).value|)) else None
    decreases xs, 2
  {
    hide Loads, Dumps, Norm, Recoverable, Proper, Drop;
    if xs != [] {
      var a, b := Dumps(xs[0]).value, DumpsAll(xs[1..]).value;
      RoundTrip(xs[0], b + r);
      ElemsBack(xs[1..], r);
      assert DumpsAll(xs).value + r == a + (b + r);
      DropAppend(a, b + r);
    }
  }

  /** `ret` holds the entries read so far, none with a key still to come. */
  lemma {:induction false} EntriesBack(es: seq<Entry>, r: seq<byte>, ret: seq<Entry>)
    requires EntriesProper(es) && DumpsEntries(es).Some?
    requires forall i, j | 0 <= i < |ret| && 0 <= j < |es| :: !SameKey(ret[i].key, es[j].key)
    ensures LoadsEntries(DumpsEntries(es).value + r, |es|, ret) ==
            if EntriesRecoverable(es) then Some((ret + NormEntries(es), |DumpsEntries(es).value|)) else None
    decreases es, 2
  {
    hide Loads, Dumps, Norm, Recoverable, Proper, Drop, Put, ScalarKey, Hashable, SameKey;
    if es == [] {
      assert ret + [] == ret;
    } else {
      var e := es[0];
      var k, v, b := Dumps(e.key).value, Dumps(e.val).value, DumpsEntries(es[1..]).value;
      EntryBack(e, b + r);
      assert DumpsEntries(es).value + r == k + (v + (b + r));
      DropAppend(k, v + (b + r));
      DropAppend(v, b + r);
      if EntryRecoverable(e) {
        ScalarNorm(e.key);
        PutNew(ret, e.key, Norm(e.val));
        var ret' := ret + [Entry(e.key, Norm(e.val))];
        NewKeys(es, ret, Norm(e.val));
        EntriesBack(es[1..], r, ret');
        Regroup(ret, [Entry(e.key, Norm(e.val))], NormEntries(es[1..]));
      }
    }
  }

  lemma NewKeys(es: seq<Entry>, ret: seq<Entry>, val: Value)
    requires es != [] && EntriesProper(es)
    requires forall i, j | 0 <= i < |ret| && 0 <= j < |es| :: !SameKey(ret[i].key, es[j].key)
    ensures var more := ret + [Entry(es[0].key, val)];
            forall i, j | 0 <= i < |more| && 0 <= j < |es[1..]| :: !SameKey(more[i].key, es[1..][j].key)
  {
    hide SameKey;
  }

  lemma {:induction false} EntryBack(e: Entry, r: seq<byte>)
    requires EntryProper(e) && DumpsEntry(e).Some?
    ensures var k, v := Dumps(e.key).value, Dumps(e.val).value;
            Loads(k + (v + r)) == Expected(e.key, |k|) && Loads(v + r) == Expected(e.val, |v|)
    ensures Recoverable(e.key) && !ScalarKey(e.key) ==> !Hashable(Norm(e.key))
    decreases e, 2
  {
    RoundTrip(e.key, Dumps(e.val).value + r);
    RoundTrip(e.val, r);
  }

  // ------------------------------------------------------------ prefixes

  /** The encoding of any value, recoverable or not, is self-delimiting: a
      stream that begins with the encodings of two values goes on equally after
      both, and the values have one normal form. */
  lemma {:induction false} SelfDelimiting(x: Value, y: Value, r: seq<byte>, q: seq<byte>)
    requires Dumps(x).Some? && Dumps(y).Some? && Dumps(x).value + r == Dumps(y).value + q
    ensures r == q && Norm(x) == Norm(y)
    decreases x, 1
  {
    SameTag(x, y, r, q);
    hide ToBE, DumpsAll, DumpsEntries, NormAll, NormEntries, DimBytes, Product;
    match x {
      case Null => SameParts([TYPE_NULL], [TYPE_NULL], r, q);
      case True => SameParts([TYPE_TRUE], [TYPE_TRUE], r, q);
      case False => SameParts([TYPE_FALSE], [TYPE_FALSE], r, q);
      case Int(n) => SameInt(n, y.n, r, q);
      case Float(bits) => SameBits(TYPE_DOUBLE, bits, y.bits, r, q);
      case Complex(bits) => SameBits(TYPE_COMPLEX_DOUBLE, bits, y.bits, r, q);
      case Mat(item, shape, data) => SameMat(item, shape, data, y.shape, y.data, r, q);
      case Str(utf8) => SameStr(utf8, y.utf8, r, q);
      case List(elems) => SameSequence(elems, y.elems, r, q);
      case Tuple(elems) => SameSequence(elems, y.elems, r, q);
      case Dict(entries) => SameDict(entries, y.entries, r, q);
    }
  }

  /** The kind of value a first byte stands for; lists and tuples share one. */
  function Tag(x: Value): nat {
    match x
    case Null => 0x00
    case True => 0x01
    case False => 0x02
    case Int(_) => 0x06
    case Float(_) => 0x0C
    case Complex(_) => 0x0E
    case Mat(item, _, _) => 0x10 + item
    case Str(_) => 0x20
    case List(_) => 0x21
    case Tuple(_) => 0x21
    case Dict(_) => 0x22
    case Other => 0xFF
  }

  lemma TagFirst(x: Value, r: seq<byte>)
    requires Dumps(x).Some?
    ensures |Dumps(x).value| > 0 && (Dumps(x).value + r)[0] == Tag(x) && Tag(x) < 0x23
    ensures x.Mat? ==> 0x13 <= Tag(x) < 0x1F
  {
    hide ToBE, DumpsAll, DumpsEntries, DimBytes, Product;
  }

  lemma SameTag(x: Value, y: Value, r: seq<byte>, q: seq<byte>)
    requires Dumps(x).Some? && Dumps(y).Some? && Dumps(x).value + r == Dumps(y).value + q
    ensures Tag(x) == Tag(y)
    ensures x.Mat? <==> y.Mat?
    ensures !x.Other? && !y.Other?
  {
    TagFirst(x, r);
    TagFirst(y, q);
    hide Dumps;
  }

  /** Sequences that agree, cut at the same place. */
  lemma SameParts<T>(a: seq<T>, b: seq<T>, r: seq<T>, q: seq<T>)
    requires a + r == b + q && |a| == |b|
    ensures a == b && r == q
  {
    assert a == (a + r)[..|a|] && b == (b + q)[..|b|];
    assert r == (a + r)[|a|..] && q == (b + q)[|b|..];
  }

  lemma SameBits(tag: byte, a: seq<byte>, b: seq<byte>, r: seq<byte>, q: seq<byte>)
    requires [tag] + a + r == [tag] + b + q && |a| == |b|
    ensures a == b && r == q
  {
    SameParts([tag] + a, [tag] + b, r, q);
    assert a == ([tag] + a)[1..] && b == ([tag] + b)[1..];
  }

  lemma SameInt(n: int, m: int, r: seq<byte>, q: seq<byte>)
    requires -TWO63 <= n < TWO63 && -TWO63 <= m < TWO63
    requires [TYPE_I64] + ToBE(if n < 0 then n + TWO64 else n, 8) + r ==
             [TYPE_I64] + ToBE(if m < 0 then m + TWO64 else m, 8) + q
    ensures n == m && r == q
  {
    IntBack(n, r);
    IntBack(m, q);
    var a, b := ToBE(if n < 0 then n + TWO64 else n, 8), ToBE(if m < 0 then m + TWO64 else m, 8);
    hide Loads, ToBE;
    SameBits(TYPE_I64, a, b, r, q);
  }

  /** The counted parts of two encodings that agree. */
  lemma SameCount(tag: byte, n: nat, m: nat, a: seq<byte>, b: seq<byte>, r: seq<byte>, q: seq<byte>)
    requires n < TWO32 && m < TWO32 && [tag] + ToBE(n, 4) + a + r == [tag] + ToBE(m, 4) + b + q
    ensures n == m && a + r == b + q
  {
    CountBack(tag, n, a, r);
    CountBack(tag, m, b, q);
    hide ToBE, FromBE;
  }

  lemma SameStr(a: seq<byte>, b: seq<byte>, r: seq<byte>, q: seq<byte>)
    requires |a| < TWO32 && |b| < TWO32
    requires [TYPE_STRING] + ToBE(|a|, 4) + a + r == [TYPE_STRING] + ToBE(|b|, 4) + b + q
    ensures a == b && r == q
  {
    SameCount(TYPE_STRING, |a|, |b|, a, b, r, q);
    hide ToBE;
    SameParts(a, b, r, q);
  }

  lemma SameMat(item: nat, shape: seq<nat>, data: seq<byte>, shape': seq<nat>, data': seq<byte>,
                r: seq<byte>, q: seq<byte>)
    requires 0 < ItemSize(item) && |shape| < 256 && DimsFit(shape) && |data| == Product(shape) * ItemSize(item)
    requires |shape'| < 256 && DimsFit(shape') && |data'| == Product(shape') * ItemSize(item)
    requires [TYPE_MAT + item, |shape|] + DimBytes(shape) + data + r ==
             [TYPE_MAT + item, |shape'|] + DimBytes(shape') + data' + q
    ensures shape == shape' && data == data' && r == q
  {
    hide DimBytes, Product, Dims;
    var a, b: seq<byte> := [TYPE_MAT + item, |shape|], [TYPE_MAT + item, |shape'|];
    Regroup4(a, DimBytes(shape), data, r);
    Regroup4(b, DimBytes(shape'), data', q);
    SameParts(a, b, DimBytes(shape) + (data + r), DimBytes(shape') + (data' + q));
    assert a[1] == b[1];
    DimsBack(shape, data + r);
    DimsBack(shape', data' + q);
    SameParts(DimBytes(shape), DimBytes(shape'), data + r, data' + q);
    SameParts(data, data', r, q);
  }

  lemma Regroup4(a: seq<byte>, b: seq<byte>, c: seq<byte>, d: seq<byte>)
    ensures a + b + c + d == a + (b + (c + d))
  {
  }

  lemma {:induction false} SameSequence(xs: seq<Value>, ys: seq<Value>, r: seq<byte>, q: seq<byte>)
    requires DumpsAll(xs).Some? && DumpsAll(ys).Some? && |xs| < TWO32 && |ys| < TWO32
    requires DumpsSequence(xs, DumpsAll(xs)).value + r == DumpsSequence(ys, DumpsAll(ys)).value + q
    ensures r == q && NormAll(xs) == NormAll(ys)
    decreases xs, 3
  {
    SameCount(TYPE_ARRAY, |xs|, |ys|, DumpsAll(xs).value, DumpsAll(ys).value, r, q);
    SameElems(xs, ys, r, q);
  }

  lemma {:induction false} SameElems(xs: seq<Value>, ys: seq<Value>, r: seq<byte>, q: seq<byte>)
    requires |xs| == |ys| && DumpsAll(xs).Some? && DumpsAll(ys).Some?
    requires DumpsAll(xs).value + r == DumpsAll(ys).value + q
    ensures r == q && NormAll(xs) == NormAll(ys)
    decreases xs, 2
  {
    hide Dumps, Norm;
    if xs != [] {
      var a, b := Dumps(xs[0]).value, DumpsAll(xs[1..]).value;
      var c, d := Dumps(ys[0]).value, DumpsAll(ys[1..]).value;
      Regroup(a, b, r);
      Regroup(c, d, q);
      SelfDelimiting(xs[0], ys[0], b + r, d + q);
      SameElems(xs[1..], ys[1..], r, q);
    } else {
      assert [] + r == r && [] + q == q;
    }
  }

  lemma {:induction false} SameDict(es: seq<Entry>, fs: seq<Entry>, r: seq<byte>, q: seq<byte>)
    requires DumpsEntries(es).Some? && DumpsEntries(fs).Some? && |es| < TWO32 && |fs| < TWO32
    requires [TYPE_ASSOCARRAY] + ToBE(|es|, 4) + DumpsEntries(es).value + r ==
             [TYPE_ASSOCARRAY] + ToBE(|fs|, 4) + DumpsEntries(fs).value + q
    ensures r == q && NormEntries(es) == NormEntries(fs)
    decreases es, 3
  {
    SameCount(TYPE_ASSOCARRAY, |es|, |fs|, DumpsEntries(es).value, DumpsEntries(fs).value, r, q);
    SameEntries(es, fs, r, q);
  }

  lemma {:induction false} SameEntries(es: seq<Entry>, fs: seq<Entry>, r: seq<byte>, q: seq<byte>)
    requires |es| == |fs| && DumpsEntries(es).Some? && DumpsEntries(fs).Some?
    requires DumpsEntries(es).value + r == DumpsEntries(fs).value + q
    ensures r == q && NormEntries(es) == NormEntries(fs)
    decreases es, 2
  {
    hide DumpsEntry, NormEntry;
    if es != [] {
      var a, b := DumpsEntry(es[0]).value, DumpsEntries(es[1..]).value;
      var c, d := DumpsEntry(fs[0]).value, DumpsEntries(fs[1..]).value;
      Regroup(a, b, r);
      Regroup(c, d, q);
      SameEntry(es[0], fs[0], b + r, d + q);
      SameEntries(es[1..], fs[1..], r, q);
    } else {
      assert [] + r == r && [] + q == q;
    }
  }

  lemma {:induction false} SameEntry(e: Entry, f: Entry, r: seq<byte>, q: seq<byte>)
    requires DumpsEntry(e).Some? && DumpsEntry(f).Some? && DumpsEntry(e).value + r == DumpsEntry(f).value + q
    ensures r == q && NormEntry(e) == NormEntry(f)
    decreases e, 2
  {
    hide Dumps, Norm;
    Regroup(Dumps(e.key).value, Dumps(e.val).value, r);
    Regroup(Dumps(f.key).value, Dumps(f.val).value, q);
    SelfDelimiting(e.key, f.key, Dumps(e.val).value + r, Dumps(f.val).value + q);
    SelfDelimiting(e.val, f.val, r, q);
  }

  /** No encoding is a proper prefix of another, and equal encodings have equal
      normal forms. */
  lemma PrefixFree(x: Value, y: Value, r: seq<byte>)
    requires Dumps(x).Some? && Dumps(y).Some? && Dumps(y).value == Dumps(x).value + r
    ensures r == [] && Norm(x) == Norm(y)
  {
    assert Dumps(y).value + [] == Dumps(y).value;
    hide Dumps;
    SelfDelimiting(x, y, r, []);
  }

  /** dumps accepts a tuple as a key, loads does not get it back. */
  lemma TupleKeyLost(r: seq<byte>)
    ensures var x := Dict([Entry(Tuple([]), Null)]);
            Proper(x) && Dumps(x).Some? && Loads(Dumps(x).value + r).None?
  {
    var e := Entry(Tuple([]), Null);
    var es := [e];
    assert es[1..] == [] && DumpsAll([]) == Some([]) && DumpsEntries(es[1..]) == Some([]);
    assert Dumps(e.key) == DumpsSequence([], Some([])) && DumpsEntry(e).Some?;
    assert DumpsEntries(es) == Append(DumpsEntry(e), DumpsEntries(es[1..]));
    assert Proper(e.key) && Proper(e.val) && EntriesProper(es[1..]) && EntriesProper(es);
    assert !EntryRecoverable(e) && !EntriesRecoverable(es);
    hide Loads, ToBE;
    RoundTrip(Dict(es), r);
  }

  // ------------------------------------------------------------ the loops

  lemma DropDrop(s: seq<byte>, a: nat, b: nat)
    ensures Drop(Drop(s, a), b) == Drop(s, a + b)
  {
  }

  ghost function After<T>(ret: seq<T>, taken: nat, r: Option<(seq<T>, nat)>): Option<(seq<T>, nat)> {
    if r.None? then None else Some((ret + r.value.0, taken + r.value.1))
  }

  lemma ElemsStart(r: Option<(seq<Value>, nat)>)
    ensures After([], 0, r) == r
  {
    if r.Some? {
      assert [] + r.value.0 == r.value.0;
    }
  }

  lemma ElemsStep(t: seq<byte>, n: nat, ret: seq<Value>, taken: nat)
    ensures n == 0 ==> After(ret, taken, LoadsElems(t, n)) == Some((ret, taken))
    ensures n > 0 && Loads(t).None? ==> LoadsElems(t, n).None?
    ensures n > 0 && Loads(t).Some? ==>
              After(ret, taken, LoadsElems(t, n)) ==
              After(ret + [Loads(t).value.0], taken + Loads(t).value.1, LoadsElems(Drop(t, Loads(t).value.1), n - 1))
  {
    hide Loads, Drop;
    if n > 0 && Loads(t).Some? {
      var e := Loads(t).value;
      var r := LoadsElems(Drop(t, e.1), n - 1);
      if r.Some? {
        assert ret + ([e.0] + r.value.0) == ret + [e.0] + r.value.0;
      }
    } else {
      assert ret + [] == ret;
    }
  }

  lemma LoadsArrayIs(s: seq<byte>)
    requires s != [] && s[0] == TYPE_ARRAY
    ensures |s| < 5 ==> Loads(s).None?
    ensures |s| >= 5 ==> Drop(s, 5) == s[5..]
    ensures |s| >= 5 ==> var r := LoadsElems(s[5..], FromBE(s[1..5]));
                         Loads(s) == if r.None? then None else Some((List(r.value.0), 5 + r.value.1))
  {
    hide LoadsElems, FromBE;
  }

  lemma LoadsAssocarrayIs(s: seq<byte>)
    requires s != [] && s[0] == TYPE_ASSOCARRAY
    ensures |s| < 5 ==> Loads(s).None?
    ensures |s| >= 5 ==> Drop(s, 5) == s[5..]
    ensures |s| >= 5 ==> var r := LoadsEntries(s[5..], FromBE(s[1..5]), []);
                         Loads(s) == if r.None? then None else Some((Dict(r.value.0), 5 + r.value.1))
  {
    hide LoadsEntries, FromBE;
  }

  /** loads_array. */
  method LoadArray(s: seq<byte>) returns (r: Loaded)
    requires s != [] && s[0] == TYPE_ARRAY
    ensures r == Loads(s)
  {
    hide Loads, Drop, LoadsElems, FromBE, After;
    LoadsArrayIs(s);
    if |s| < 5 {
      return None;
    }
    var siz := FromBE(s[1..5]);
    var ret: seq<Value>, i: nat := [], 5;
    ghost var total := LoadsElems(s[5..], siz);
    ElemsStart(total);
    for j := 0 to siz
      invariant i >= 5 && total == After(ret, i - 5, LoadsElems(Drop(s, i), siz - j))
    {
      ElemsStep(Drop(s, i), siz - j, ret, i - 5);
      var e := Loads(Drop(s, i));
      if e.None? {
        AfterNone(ret, i - 5);
        return None;
      }
      DropDrop(s, i, e.value.1);
      ret := ret + [e.value.0];
      i := i + e.value.1;
    }
    ElemsStep(Drop(s, i), 0, ret, i - 5);
    return Some((List(ret), i));
  }

  lemma AfterNone(ret: seq<Value>, taken: nat)
    ensures After(ret, taken, None).None?
  {
  }

  ghost function Taken<T>(taken: nat, r: Option<(T, nat)>): Option<(T, nat)> {
    if r.None? then None else Some((r.value.0, taken + r.value.1))
  }

  lemma EntriesStep(t: seq<byte>, n: nat, ret: seq<Entry>, taken: nat)
    ensures n == 0 ==> Taken(taken, LoadsEntries(t, n, ret)) == Some((ret, taken))
    ensures n > 0 && Loads(t).None? ==> LoadsEntries(t, n, ret).None?
    ensures n > 0 && Loads(t).Some? ==>
              var k, u := Loads(t).value, Drop(t, Loads(t).value.1);
              (Loads(u).None? || !Hashable(k.0) ==> LoadsEntries(t, n, ret).None?) &&
              (Loads(u).Some? && Hashable(k.0) ==>
                Taken(taken, LoadsEntries(t, n, ret)) ==
                Taken(taken + k.1 + Loads(u).value.1,
                      LoadsEntries(Drop(u, Loads(u).value.1), n - 1, Put(ret, k.0, Loads(u).value.0))))
  {
    hide Loads, Drop, Hashable, Put;
  }

  /** loads_assocarray. */
  method LoadAssocarray(s: seq<byte>) returns (r: Loaded)
    requires s != [] && s[0] == TYPE_ASSOCARRAY
    ensures r == Loads(s)
  {
    hide Loads, Drop, Put, Hashable, LoadsEntries, FromBE;
    LoadsAssocarrayIs(s);
    if |s| < 5 {
      return None;
    }
    var siz := FromBE(s[1..5]);
    var ret: seq<Entry>, i: nat := [], 5;
    ghost var total := LoadsEntries(s[5..], siz, []);
    for j := 0 to siz
      invariant i >= 5 && total == Taken(i - 5, LoadsEntries(Drop(s, i), siz - j, ret))
    {
      EntriesStep(Drop(s, i), siz - j, ret, i - 5);
      var k := Loads(Drop(s, i));
      if k.None? {
        return None;
      }
      DropDrop(s, i, k.value.1);
      i := i + k.value.1;
      var v := Loads(Drop(s, i));
      if v.None? {
        return None;
      }
      DropDrop(s, i, v.value.1);
      i := i + v.value.1;
      if !Hashable(k.value.0) {
        return None;
      }
      ret := Put(ret, k.value.0, v.value.0);
    }
    EntriesStep(Drop(s, i), 0, ret, i - 5);
    return Some((Dict(ret), i));
  }

  ghost function Prefixed(done: seq<byte>, more: Option<seq<byte>>): Option<seq<byte>> {
    if more.None? then None else Some(done + more.value)
  }

  lemma PrefixedMore(done: seq<byte>, a: seq<byte>, more: Option<seq<byte>>)
    ensures Prefixed(done, Append(Some(a), more)) == Prefixed(done + a, more)
  {
    if more.Some? {
      assert done + (a + more.value) == done + a + more.value;
    }
  }

  /** The sequence case of dumps. */
  method DumpSequence(elems: seq<Value>) returns (r: Option<seq<byte>>)
    ensures r == Dumps(List(elems)) == Dumps(Tuple(elems))
  {
    var elements: seq<byte> := [];
    ghost var total := DumpsAll(elems);
    assert total == Prefixed([], total) by {
      if total.Some? {
        assert [] + total.value == total.value;
      }
    }
    hide Dumps;
    for j := 0 to |elems|
      invariant total == Prefixed(elements, DumpsAll(elems[j..]))
    {
      assert elems[j..][0] == elems[j] && elems[j..][1..] == elems[j + 1..];
      var e := Dumps(elems[j]);
      if e.None? {
        DumpsFails(elems, j);
        return None;
      }
      PrefixedMore(elements, e.value, DumpsAll(elems[j + 1..]));
      elements := elements + e.value;
    }
    assert elements + [] == elements;
    DumpsSequences(elems);
    if |elems| >= TWO32 {
      return None;
    }
    return Some([TYPE_ARRAY] + ToBE(|elems|, 4) + elements);
  }

  lemma DumpsSequences(elems: seq<Value>)
    ensures Dumps(List(elems)) == Dumps(Tuple(elems)) == DumpsSequence(elems, DumpsAll(elems))
  {
  }

  lemma {:induction false} DumpsFails(elems: seq<Value>, j: nat)
    requires j < |elems| && Dumps(elems[j]).None?
    ensures DumpsAll(elems).None? && Dumps(List(elems)).None? && Dumps(Tuple(elems)).None?
  {
    if j > 0 {
      DumpsFails(elems[1..], j - 1);
    }
  }

  /** The mapping case of dumps. */
  method DumpMapping(entries: seq<Entry>) returns (r: Option<seq<byte>>)
    ensures r == Dumps(Dict(entries))
  {
    var keyvalpairs: seq<byte> := [];
    ghost var total := DumpsEntries(entries);
    assert total == Prefixed([], total) by {
      if total.Some? {
        assert [] + total.value == total.value;
      }
    }
    assert Dumps(Dict(entries)) == if total.Some? && |entries| < TWO32
      then Some([TYPE_ASSOCARRAY] + ToBE(|entries|, 4) + total.value) else None;
    hide Dumps, ToBE;
    for j := 0 to |entries|
      invariant total == Prefixed(keyvalpairs, DumpsEntries(entries[j..]))
    {
      assert entries[j..][0] == entries[j] && entries[j..][1..] == entries[j + 1..];
      var key := Dumps(entries[j].key);
      var val := Dumps(entries[j].val);
      if key.None? || val.None? {
        return None;
      }
      PrefixedMore(keyvalpairs, key.value + val.value, DumpsEntries(entries[j + 1..]));
      assert keyvalpairs + (key.value + val.value) == keyvalpairs + key.value + val.value;
      keyvalpairs := keyvalpairs + key.value;
      keyvalpairs := keyvalpairs + val.value;
    }
    assert keyvalpairs + [] == keyvalpairs;
    if |entries| >= TWO32 {
      return None;
    }
    return Some([TYPE_ASSOCARRAY] + ToBE(|entries|, 4) + keyvalpairs);
  }
}
