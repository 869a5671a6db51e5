// The dimeb format in literal bytes, for everything the two functions of
// client/python/dime/dimeb.py read and write - also what other encoders may
// send and dumps never does - and the meaning of dict keys.

module DimebFormat {
  import opened Wrappers
  import opened Arithmetic
  import opened Sequences
  import opened Bytes
  import opened Dimeb

  // ------------------------------------------------------------ loading scalars

  lemma LoadsSentinels(r: seq<byte>)
    ensures Loads([0x00] + r) == Some((Null, 1))
    ensures Loads([0x01] + r) == Some((True, 1))
    ensures Loads([0x02] + r) == Some((False, 1))
  {
  }

  /** The code of an integer of w bytes. */
  function IntCode(w: nat, signed: bool): byte {
    match w
    case 1 => if signed then 0x03 else 0x07
    case 2 => if signed then 0x04 else 0x08
    case 4 => if signed then 0x05 else 0x09
    case _ => if signed then 0x06 else 0x0A
  }

  /** loads_u8 to loads_u64: the bytes are the number, big-endian. */
  lemma LoadsUnsigned(w: nat, n: nat, r: seq<byte>)
    requires w in {1, 2, 4, 8} && n < Pow256(w)
    ensures Loads([IntCode(w, false)] + ToBE(n, w) + r) == Some((Int(n), 1 + w))
  {
    IntLoads(IntCode(w, false), ToBE(n, w), r);
    FromToBE(n, w);
  }

  /** loads_i8 to loads_i64: two's complement. */
  lemma LoadsSigned(w: nat, n: int, r: seq<byte>)
    requires w in {1, 2, 4, 8} && -2 * n <= Pow256(w) && 2 * n < Pow256(w)
    ensures Loads([IntCode(w, true)] + ToBE(if n < 0 then n + Pow256(w) else n, w) + r) == Some((Int(n), 1 + w))
  {
    var m: nat := if n < 0 then n + Pow256(w) else n;
    IntLoads(IntCode(w, true), ToBE(m, w), r);
    FromToBE(m, w);
    hide ToBE, FromBE, Loads, Pow256;
  }

  lemma IntLoads(code: byte, bytes: seq<byte>, r: seq<byte>)
    requires 0x03 <= code <= 0x0A && |bytes| == ItemSize(code)
    ensures var n := FromBE(bytes);
            Loads([code] + bytes + r) ==
              Some((Int(if code <= 0x06 && 2 * n >= Pow256(|bytes|) then n - Pow256(|bytes|) else n), 1 + |bytes|))
  {
    TagIs(code, bytes, r);
    hide FromBE, Pow256;
  }

  /** The floating-point scalars: the bytes come back. */
  lemma LoadsBits(bits: seq<byte>, r: seq<byte>)
    ensures |bits| == 4 ==> Loads([0x0B] + bits + r) == Some((Float(bits), 5))
    ensures |bits| == 8 ==> Loads([0x0C] + bits + r) == Some((Float(bits), 9))
    ensures |bits| == 8 ==> Loads([0x0D] + bits + r) == Some((Complex(bits), 9))
    ensures |bits| == 16 ==> Loads([0x0E] + bits + r) == Some((Complex(bits), 17))
  {
    TagIs(0x0B, bits, r);
    TagIs(0x0C, bits, r);
    TagIs(0x0D, bits, r);
    TagIs(0x0E, bits, r);
  }

  /** A scalar that is cut short is an error, and so is a code that stands for
      nothing. */
  lemma LoadsErrors(code: byte, rest: seq<byte>)
    ensures code in {0x03, 0x07} && |rest| < 1 ==> Loads([code] + rest).None?
    ensures code in {0x04, 0x08} && |rest| < 2 ==> Loads([code] + rest).None?
    ensures code in {0x05, 0x09, 0x0B} && |rest| < 4 ==> Loads([code] + rest).None?
    ensures code in {0x06, 0x0A, 0x0C, 0x0D} && |rest| < 8 ==> Loads([code] + rest).None?
    ensures code == 0x0E && |rest| < 16 ==> Loads([code] + rest).None?
    ensures code in {0x20, 0x21, 0x22} && |rest| < 4 ==> Loads([code] + rest).None?
    ensures 0x0E < code < 0x13 || code == 0x1F || 0x22 < code ==> Loads([code] + rest).None?
    ensures Loads([]).None?
  {
    hide FromBE, LoadsElems, LoadsEntries, LoadsMat;
  }

  /** A string is not checked for its length: what is there is taken, and the
      size is the declared one. */
  lemma LoadsString(n: nat, text: seq<byte>)
    requires n < TWO32
    ensures Loads([0x20] + ToBE(n, 4) + text) ==
            Some((Str(if n <= |text| then text[..n] else text), 5 + n))
  {
    CountBack(TYPE_STRING, n, text, []);
    hide ToBE, FromBE;
    var u := [0x20] + ToBE(n, 4) + text;
    assert u + [] == u && text + [] == text;
  }

  // ------------------------------------------------------------ loading arrays

  /** The shape an array is loaded with: of two dimensions a unit one is
      dropped, the first one if both are. */
  ghost predicate Reshaped(shape: seq<nat>, loaded: seq<nat>) {
    && (|shape| == 2 && shape[0] == 1 ==> loaded == [shape[1]])
    && (|shape| == 2 && shape[0] != 1 && shape[1] == 1 ==> loaded == [shape[0]])
    && (|shape| == 2 && shape[0] != 1 && shape[1] != 1 ==> loaded == shape)
    && (|shape| != 2 ==> loaded == shape)
  }

  /** The shape that is loaded has as many items. */
  lemma ReshapedProduct(shape: seq<nat>, loaded: seq<nat>)
    requires Reshaped(shape, loaded)
    ensures Product(loaded) == Product(shape)
  {
    if |shape| == 2 {
      var a, b := shape[0], shape[1];
      OneDimension(a);
      OneDimension(b);
      assert shape[1..] == [b];
      assert Product(shape) == a * Product([b]);
      hide Product;
      assert a == 1 ==> a * b == b;
      assert b == 1 ==> a * b == a;
    }
  }

  lemma OneDimension(a: nat)
    ensures Product([a]) == a
  {
    assert Product([]) == 1;
    assert [a][1..] == [];
  }

  /** An array of any type and shape but rank 0: the items come back, as many as
      the dimensions say, under the reshaped dimensions. */
  lemma LoadsArrayShape(item: nat, shape: seq<nat>, data: seq<byte>, r: seq<byte>) returns (loaded: seq<nat>)
    requires 0x03 <= item <= 0x0E && 0 < |shape| < 256 && DimsFit(shape)
    requires |data| == Product(shape) * ItemSize(item)
    ensures Reshaped(shape, loaded)
    ensures Loads([0x10 + item, |shape|] + DimBytes(shape) + data + r) ==
            Some((Mat(item, loaded, data), 2 + 4 * |shape| + |data|))
  {
    loaded := Squeezed(shape);
    MatBack(item, shape, data, r);
    DimsBack(shape, []);
    hide Loads, DimBytes, Dims, Product;
  }

  /** The dimensions are 32-bit numbers, one after the other. */
  lemma {:induction false} DimensionAt(shape: seq<nat>, i: nat)
    requires DimsFit(shape) && i < |shape|
    ensures |DimBytes(shape)| == 4 * |shape| && FromBE(DimBytes(shape)[4 * i..4 * i + 4]) == shape[i]
  {
    var u, rest := DimBytes(shape), DimBytes(shape[1..]);
    DimsBack(shape, []);
    DimsBack(shape[1..], []);
    if i == 0 {
      Pow256Values();
      FromToBE(shape[0], 4);
      hide ToBE, FromBE, Pow256;
      assert u[..4] == ToBE(shape[0], 4);
    } else {
      DimensionAt(shape[1..], i - 1);
      hide ToBE, FromBE;
      assert u[4 * i..4 * i + 4] == rest[4 * (i - 1)..4 * (i - 1) + 4];
    }
  }

  // ------------------------------------------------------------ containers

  /** Some encoding of a value: loads finds it, whatever follows. */
  ghost predicate Codes(code: seq<byte>, v: Value) {
    forall t :: Loads(code + t) == Some((v, |code|))
  }

  lemma CodesAt(code: seq<byte>, v: Value, t: seq<byte>)
    requires Codes(code, v)
    ensures Loads(code + t) == Some((v, |code|)) && Drop(code + t, |code|) == t
  {
  }

  ghost predicate AllCode(codes: seq<seq<byte>>, vs: seq<Value>) {
    |codes| == |vs| && forall i | 0 <= i < |vs| :: Codes(codes[i], vs[i])
  }

  /** A list of encodings, by whatever encoder, loads as the list of values. */
  lemma ListOfCodes(codes: seq<seq<byte>>, vs: seq<Value>)
    requires AllCode(codes, vs) && |vs| < TWO32
    ensures Codes([0x21] + ToBE(|vs|, 4) + Concat(codes), List(vs))
  {
    var code := [0x21] + ToBE(|vs|, 4) + Concat(codes);
    forall t ensures Loads(code + t) == Some((List(vs), |code|)) {
      CountBack(TYPE_ARRAY, |vs|, Concat(codes), t);
      ElemsOfCodes(codes, vs, t);
      LoadsArrayIs(code + t);
      hide Loads, ToBE, FromBE, LoadsElems, Concat;
    }
  }

  lemma {:induction false} ElemsOfCodes(codes: seq<seq<byte>>, vs: seq<Value>, t: seq<byte>)
    requires AllCode(codes, vs)
    ensures LoadsElems(Concat(codes) + t, |vs|) == Some((vs, |Concat(codes)|))
    decreases |vs|
  {
    hide Loads, Drop, Codes;
    if vs != [] {
      Regroup(codes[0], Concat(codes[1..]), t);
      CodesAt(codes[0], vs[0], Concat(codes[1..]) + t);
      ElemsOfCodes(codes[1..], vs[1..], t);
      assert [vs[0]] + vs[1..] == vs;
    }
  }

  /** ret[k] = v, for one entry after the other. */
  function PutAll(ret: seq<Entry>, es: seq<Entry>): seq<Entry>
    decreases |es|
  {
    if es == [] then ret else PutAll(Put(ret, es[0].key, es[0].val), es[1..])
  }

  ghost predicate EntriesCode(keys: seq<seq<byte>>, vals: seq<seq<byte>>, es: seq<Entry>) {
    |keys| == |vals| == |es| &&
    forall i | 0 <= i < |es| :: Codes(keys[i], es[i].key) && Codes(vals[i], es[i].val) && Hashable(es[i].key)
  }

  function Interleaved(keys: seq<seq<byte>>, vals: seq<seq<byte>>): seq<byte>
    requires |keys| == |vals|
  {
    if keys == [] then [] else keys[0] + (vals[0] + Interleaved(keys[1..], vals[1..]))
  }

  /** Encodings of keys and values, by whatever encoder and in any order, load as
      the dict that assigning them one after the other makes. */
  lemma DictOfCodes(keys: seq<seq<byte>>, vals: seq<seq<byte>>, es: seq<Entry>)
    requires EntriesCode(keys, vals, es) && |es| < TWO32
    ensures Codes([0x22] + ToBE(|es|, 4) + Interleaved(keys, vals), Dict(PutAll([], es)))
  {
    forall t
      ensures var code := [0x22] + ToBE(|es|, 4) + Interleaved(keys, vals);
              Loads(code + t) == Some((Dict(PutAll([], es)), |code|))
    {
      EntriesOfCodes(keys, vals, es, t, []);
      hide EntriesCode, Loads, ToBE, LoadsEntries, PutAll;
      DictLoads(Interleaved(keys, vals), |es|, PutAll([], es), t);
    }
  }

  lemma DictLoads(body: seq<byte>, n: nat, entries: seq<Entry>, t: seq<byte>)
    requires n < TWO32 && LoadsEntries(body + t, n, []) == Some((entries, |body|))
    ensures var code := [0x22] + ToBE(n, 4) + body;
            Loads(code + t) == Some((Dict(entries), |code|))
  {
    CountBack(TYPE_ASSOCARRAY, n, body, t);
    LoadsAssocarrayIs([0x22] + ToBE(n, 4) + body + t);
    hide Loads, ToBE, FromBE, LoadsEntries;
  }

  lemma {:induction false} EntriesOfCodes(keys: seq<seq<byte>>, vals: seq<seq<byte>>, es: seq<Entry>, t: seq<byte>,
                                          ret: seq<Entry>)
    requires EntriesCode(keys, vals, es)
    ensures LoadsEntries(Interleaved(keys, vals) + t, |es|, ret) == Some((PutAll(ret, es), |Interleaved(keys, vals)|))
    decreases |es|
  {
    hide Loads, Drop, Codes, Put, Hashable;
    if es != [] {
      var rest := Interleaved(keys[1..], vals[1..]);
      assert Interleaved(keys, vals) + t == keys[0] + (vals[0] + (rest + t));
      CodesAt(keys[0], es[0].key, vals[0] + (rest + t));
      CodesAt(vals[0], es[0].val, rest + t);
      EntriesOfCodes(keys[1..], vals[1..], es[1..], t, Put(ret, es[0].key, es[0].val));
    }
  }

  // ------------------------------------------------------------ dict keys

  /** Assigning to a key that is there: the entry keeps its place and its key,
      and gets the value. Assigning to a new key adds an entry (PutNew). */
  lemma {:induction false} PutFound(ret: seq<Entry>, key: Value, val: Value, i: nat)
    requires i < |ret| && SameKey(ret[i].key, key) && forall j | 0 <= j < i :: !SameKey(ret[j].key, key)
    ensures Put(ret, key, val) == ret[i := Entry(ret[i].key, val)]
    decreases i
  {
    hide SameKey;
    if i > 0 {
      PutFound(ret[1..], key, val, i - 1);
      assert ret[i := Entry(ret[i].key, val)] == [ret[0]] + ret[1..][i - 1 := Entry(ret[i].key, val)];
    }
  }

  /** Which keys are the same: integers by their value, True and False as 1 and
      0, text only as the same text, None only as None. */
  lemma SameKeys(m: int, n: int, a: seq<byte>, x: Value)
    ensures SameKey(Int(m), Int(n)) <==> m == n
    ensures SameKey(True, Int(n)) <==> n == 1
    ensures SameKey(False, Int(n)) <==> n == 0
    ensures !SameKey(True, False)
    ensures SameKey(Str(a), x) <==> x == Str(a)
    ensures SameKey(Null, x) <==> x == Null
    ensures SameKey(x, Int(n)) <==> SameKey(Int(n), x)
  {
    hide Ieee;
    assert m as real == n as real <==> m == n;
  }

  /** An IEEE 754 key of the value (2^w + f) * 2^(k - w) - exponent k, fraction f,
      w bits of fraction - is the same key as the integer m if and only if this
      value is m. */
  lemma FloatKey(bits: seq<byte>, w: nat, bias: nat, k: nat, f: nat, negative: bool, m: int)
    requires (|bits| == 4 && w == 23 && bias == 127) || (|bits| == 8 && w == 52 && bias == 1023)
    requires k <= w && f < Pow2(w)
    requires FromBE(bits) == ((if negative then 2 * (bias + 1) else 0) + bias + k) * Pow2(w) + f
    ensures SameKey(Float(bits), Int(m)) <==> (if negative then -m else m) * Pow2(w - k) == Pow2(w) + f
  {
    PowersOfTwo();
    hide FromBE, Pow2, Power2, Ieee, SameKey;
    IeeeIs(bits, w, Pow2(w), bias, k, f, negative);
    ScaledKey(bits, Pow2(w) + f, w - k, negative, m);
  }

  lemma ScaledKey(bits: seq<byte>, n: nat, j: nat, negative: bool, m: int)
    requires var value := n as real * Power2(0 - j); Ieee(bits) == Finite(if negative then -value else value)
    ensures SameKey(Float(bits), Int(m)) <==> (if negative then -m else m) * Pow2(j) == n
  {
    hide Ieee, SameKey, Pow2, Power2;
    var value := n as real * Power2(0 - j);
    FiniteKey(bits, if negative then -value else value, m);
    ScaledBack(n, j, if negative then -m else m);
  }

  lemma FiniteKey(bits: seq<byte>, r: real, m: int)
    requires Ieee(bits) == Finite(r)
    ensures SameKey(Float(bits), Int(m)) <==> r == m as real
  {
    hide Ieee;
  }

  lemma IeeeIs(bits: seq<byte>, w: nat, size: nat, bias: nat, k: nat, f: nat, negative: bool)
    requires (|bits| == 4 && w == 23 && size == 0x80_0000 && bias == 127) ||
             (|bits| == 8 && w == 52 && size == 0x10_0000_0000_0000 && bias == 1023)
    requires k <= w && f < size
    requires FromBE(bits) == ((if negative then 2 * (bias + 1) else 0) + bias + k) * size + f
    ensures var value := (size + f) as real * Power2(k - w);
            Ieee(bits) == Finite(if negative then -value else value)
  {
    hide FromBE, Power2, Pow2;
    var top := (if negative then 2 * (bias + 1) else 0) + bias + k;
    DivisionUnique(FromBE(bits), top, f, size);
    IeeeParts(top, bias, k, negative);
  }

  lemma IeeeParts(top: nat, bias: nat, k: nat, negative: bool)
    requires k < bias + 1 && top == (if negative then 2 * (bias + 1) else 0) + bias + k
    ensures top % (2 * bias + 2) == bias + k && (top >= 2 * bias + 2 <==> negative)
  {
    DivisionUnique(top, if negative then 1 else 0, bias + k, 2 * bias + 2);
  }

  /** Zero is 0, with either sign; a NaN is no key's equal, not even its own. */
  lemma SpecialFloats(bits: seq<byte>, m: int)
    requires |bits| == 8
    ensures FromBE(bits) in {0, 0x8000_0000_0000_0000} ==> (SameKey(Float(bits), Int(m)) <==> m == 0)
    ensures FromBE(bits) == 0x7FF8_0000_0000_0000 ==> !SameKey(Float(bits), Float(bits))
    ensures FromBE(bits) == 0x7FF0_0000_0000_0000 ==> !SameKey(Float(bits), Int(m)) && SameKey(Float(bits), Float(bits))
  {
    hide FromBE, Power2;
  }

  lemma PowersOfTwo()
    ensures Pow2(23) == 0x80_0000 && Pow2(52) == 0x10_0000_0000_0000
  {
    assert Pow2(10) == 0x400;
    assert Pow2(20) == 0x10_0000;
    assert Pow2(30) == 0x4000_0000;
    assert Pow2(40) == 0x100_0000_0000;
    assert Pow2(50) == 0x4_0000_0000_0000;
  }

  lemma {:induction false} PowerBack(j: nat)
    ensures Power2(0 - j) * Pow2(j) as real == 1.0
  {
    if j > 0 {
      PowerBack(j - 1);
      var p, q := Power2(1 - j), Pow2(j - 1) as real;
      assert Power2(0 - j) == p / 2.0 && Pow2(j) as real == 2.0 * q;
      assert (p / 2.0) * (2.0 * q) == p * q;
    }
  }

  lemma ScaledBack(n: nat, j: nat, m: int)
    ensures n as real * Power2(0 - j) == m as real <==> m * Pow2(j) == n
  {
    PowerBack(j);
    RealScale(n as real, Power2(0 - j), Pow2(j) as real, m as real);
    hide Power2, Pow2;
    assert (m * Pow2(j)) as real == m as real * Pow2(j) as real;
  }

  lemma RealScale(n: real, p: real, q: real, m: real)
    requires p * q == 1.0
    ensures n * p == m <==> m * q == n
  {
    assert n * p * q == n * (p * q) == n;
    assert m * q * p == m * (p * q) == m;
  }

  // ------------------------------------------------------------ dumping

  /** What dumps writes for a scalar, or an exception. */
  lemma DumpsScalars(n: int, bits: seq<byte>, utf8: seq<byte>)
    ensures Dumps(Null) == Some([0x00]) && Dumps(True) == Some([0x01]) && Dumps(False) == Some([0x02])
    ensures 0 <= n < 0x8000_0000_0000_0000 ==> Dumps(Int(n)) == Some([0x06] + ToBE(n, 8))
    ensures -0x8000_0000_0000_0000 <= n < 0 ==> Dumps(Int(n)) == Some([0x06] + ToBE(n + 0x1_0000_0000_0000_0000, 8))
    ensures n < -0x8000_0000_0000_0000 || 0x8000_0000_0000_0000 <= n ==> Dumps(Int(n)).None?
    ensures |bits| == 8 ==> Dumps(Float(bits)) == Some([0x0C] + bits)
    ensures |bits| == 16 ==> Dumps(Complex(bits)) == Some([0x0E] + bits)
    ensures Dumps(Str(utf8)) ==
            if |utf8| < 0x1_0000_0000 then Some([0x20] + ToBE(|utf8|, 4) + utf8) else None
    ensures Dumps(Other).None?
  {
    hide ToBE;
  }

  /** An array: type, rank, dimensions, items. */
  lemma DumpsArray(item: nat, shape: seq<nat>, data: seq<byte>)
    requires 0x03 <= item <= 0x0E && |shape| < 256 && DimsFit(shape) && |data| == Product(shape) * ItemSize(item)
    ensures Dumps(Mat(item, shape, data)) == Some([0x10 + item, |shape|] + DimBytes(shape) + data)
  {
    hide Product, DimBytes;
  }

  /** A sequence: the count, and the encodings one after the other. */
  lemma DumpsList(elems: seq<Value>, codes: seq<seq<byte>>)
    requires |codes| == |elems| && forall i | 0 <= i < |elems| :: Dumps(elems[i]) == Some(codes[i])
    ensures var r := if |elems| < 0x1_0000_0000 then Some([0x21] + ToBE(|elems|, 4) + Concat(codes)) else None;
            Dumps(List(elems)) == r && Dumps(Tuple(elems)) == r
  {
    DumpsAllIs(elems, codes);
    DumpsSequences(elems);
    hide ToBE, Concat, DumpsAll, Dumps;
  }

  lemma {:induction false} DumpsAllIs(elems: seq<Value>, codes: seq<seq<byte>>)
    requires |codes| == |elems| && forall i | 0 <= i < |elems| :: Dumps(elems[i]) == Some(codes[i])
    ensures DumpsAll(elems) == Some(Concat(codes))
  {
    hide Dumps;
    if elems != [] {
      DumpsAllIs(elems[1..], codes[1..]);
    }
  }

  /** A mapping: the count, and key and value of one entry after the other. */
  lemma DumpsDict(es: seq<Entry>, keys: seq<seq<byte>>, vals: seq<seq<byte>>)
    requires |keys| == |vals| == |es|
    requires forall i | 0 <= i < |es| :: Dumps(es[i].key) == Some(keys[i]) && Dumps(es[i].val) == Some(vals[i])
    ensures Dumps(Dict(es)) ==
            if |es| < 0x1_0000_0000 then Some([0x22] + ToBE(|es|, 4) + Interleaved(keys, vals)) else None
  {
    DumpsEntriesIs(es, keys, vals);
    hide ToBE, Interleaved, DumpsEntries;
  }

  lemma {:induction false} DumpsEntriesIs(es: seq<Entry>, keys: seq<seq<byte>>, vals: seq<seq<byte>>)
    requires |keys| == |vals| == |es|
    requires forall i | 0 <= i < |es| :: Dumps(es[i].key) == Some(keys[i]) && Dumps(es[i].val) == Some(vals[i])
    ensures DumpsEntries(es) == Some(Interleaved(keys, vals))
  {
    hide Dumps;
    if es != [] {
      DumpsEntriesIs(es[1..], keys[1..], vals[1..]);
      Regroup(keys[0], vals[0], Interleaved(keys[1..], vals[1..]));
    }
  }
}
