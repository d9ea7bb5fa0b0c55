/** `ByteUnpack`: reading a value of a given type from the front of a byte slice. Every
    implementation returns `Ok`; the ways it can go wrong are panics on a slice that is too
    short, which the preconditions exclude. */
module Unpacking {
  import opened Results
  import opened Endian
  import opened Base
  import opened Packing

  /** Types with a `ByteUnpack` implementation: every type but `i32` and `SplatVec`. The element
      type of a `DrainVec` must have one fixed, non-zero size: with size 0 the drain loop never
      advances. */
  predicate Unpackable(t: Ty)
    decreases t, 0
  {
    match t
    case UTy(_) => true
    case I32Ty => false
    case LETy(w) => w != W8
    case ArrTy(_, _, _) => true
    case SplatTy(_) => false
    case DrainTy(e) => DrainElement(e)
    case RecordTy(fs) => forall i | 0 <= i < |fs| :: Unpackable(fs[i])
  }

  /** Types whose every value has one `byte_size` and unpacks. */
  predicate FixedUnpackable(t: Ty)
  {
    Unpackable(t) && IsFixed(t)
  }

  /** A value of type `t` that both packs and unpacks. */
  predicate Codable(v: Val, t: Ty)
  {
    HasType(v, t) && Encodable(v) && Unpackable(t)
  }

  /** An element type a `DrainVec` can hold: unpackable, with one fixed, non-zero size. */
  predicate DrainElement(e: Ty)
    decreases e, 1
  {
    Unpackable(e) && IsFixed(e) && StaticSize(e) > 0 && Fits(e, StaticSize(e))
  }

  /** Unpacking a `t` from `n` bytes indexes and slices only within bounds: a fixed type needs
      its `byte_size` bytes, a `DrainVec` a whole number of elements, and each record field fits
      in what the fields before it leave (a `DrainVec` field leaves everything). */
  predicate Fits(t: Ty, n: nat)
    decreases t
  {
    match t
    case DrainTy(e) => StaticSize(e) > 0 && n % StaticSize(e) == 0
    case RecordTy(fs) => FieldsFit(fs, n)
    case _ => StaticSize(t) <= n
  }

  predicate FieldsFit(fs: seq<Ty>, n: nat)
    decreases fs
  {
    fs == [] || (Fits(fs[0], n) && StaticSize(fs[0]) <= n && FieldsFit(fs[1..], n - StaticSize(fs[0])))
  }

  /** For a type without vectors, fitting is having `byte_size` bytes. */
  lemma {:induction false} FixedFits(t: Ty, n: nat)
    requires IsFixed(t)
    ensures Fits(t, n) <==> StaticSize(t) <= n
    decreases t
  {
    match t
    case RecordTy(fs) => FixedFieldsFit(fs, n);
    case _ =>
  }

  lemma {:induction false} FixedFieldsFit(fs: seq<Ty>, n: nat)
    requires forall i | 0 <= i < |fs| :: IsFixed(fs[i])
    ensures FieldsFit(fs, n) <==> SumStatic(fs) <= n
    decreases fs
  {
    if fs != [] {
      FixedFits(fs[0], n);
      if StaticSize(fs[0]) <= n {
        FixedFieldsFit(fs[1..], n - StaticSize(fs[0]));
      }
    }
  }

  /** `ByteUnpack::unpack`: `u8` is the first byte, `uXX` the big-endian value of the first
      `byte_size` bytes, `LEuXX` the little-endian value, an array its elements read at stride
      `byte_size` of the element, a `DrainVec` elements up to the end of the slice, and a
      record its fields in order, the slice advanced by each field's `byte_size`. */
  function Unpack(t: Ty, bs: seq<Byte>): (r: Result<Val, ()>)
    requires Unpackable(t) && Fits(t, |bs|)
    ensures r.Ok? && Size(r.value) == StaticSize(t)
    decreases t, 0
  {
    match t
    case UTy(w) =>
      if w == W8 then Ok(UInt(W8, bs[0] as nat)) else Ok(UInt(w, FromBE(bs[..Bytes(w)])))
    case LETy(w) => Ok(LEUInt(w, FromLE(bs[..Bytes(w)])))
    case ArrTy(w, n, boxed) => Ok(Arr(w, boxed, UnpackArray(w, n, bs)))
    case DrainTy(e) => Ok(Drain(DrainItems(e, bs)))
    case RecordTy(fs) => Ok(Record(UnpackFields(fs, bs)))
  }

  /** The elements of a `[uXX; N]`, each read by `ElementAt`. */
  function UnpackArray(w: Width, n: nat, bs: seq<Byte>): (r: seq<nat>)
    requires Bytes(w) * n <= |bs|
    ensures |r| == n
  {
    seq(n, i requires 0 <= i < n => ElementAt(bs, Bytes(w), i, n))
  }

  /** Every element of an unpacked `[uXX; N]` fits its width. */
  lemma UnpackArrayBound(w: Width, n: nat, bs: seq<Byte>)
    requires Bytes(w) * n <= |bs|
    ensures forall i | 0 <= i < n :: UnpackArray(w, n, bs)[i] < Pow256(Bytes(w))
  {
    forall i | 0 <= i < n
      ensures UnpackArray(w, n, bs)[i] < Pow256(Bytes(w))
    {
      UnpackArrayAt(w, n, bs, i);
    }
  }

  /** Element `i` of an unpacked `[uXX; N]` is the big-endian value of bytes `[k * i, k * i + k)`,
      with `k` the element width. */
  lemma UnpackArrayAt(w: Width, n: nat, bs: seq<Byte>, i: nat)
    requires Bytes(w) * n <= |bs| && i < n
    ensures 0 <= Bytes(w) * i && Bytes(w) * i + Bytes(w) <= |bs|
    ensures UnpackArray(w, n, bs)[i] == FromBE(bs[Bytes(w) * i .. Bytes(w) * i + Bytes(w)])
  {
    assert UnpackArray(w, n, bs)[i] == ElementAt(bs, Bytes(w), i, n);
    ElementAtValue(bs, Bytes(w), i, n);
  }

  /** Element `i` of an array of `k`-byte integers: one byte read directly when `k` is 1, as
      `[u8; N]` does, and a big-endian conversion otherwise. */
  function ElementAt(bs: seq<Byte>, k: nat, i: nat, n: nat): nat
    requires i < n && k * n <= |bs|
  {
    MulStep(k, i, n);
    if k == 1 then bs[i] as nat else FromBE(bs[k * i .. k * i + k])
  }

  /** Both ways of reading an element agree: a single byte is its own big-endian value. */
  lemma ElementAtValue(bs: seq<Byte>, k: nat, i: nat, n: nat)
    requires i < n && k * n <= |bs|
    ensures 0 <= k * i && k * i + k <= |bs| && ElementAt(bs, k, i, n) == FromBE(bs[k * i .. k * i + k])
  {
    MulStep(k, i, n);
    if k == 1 {
      var s := bs[i..i + 1];
      assert s == [bs[i]] && s[..0] == [];
      assert FromBE(s) == bs[i] as nat;
    }
  }

  /** The elements a `DrainVec<T>` collects from `bs`: one `T` after another until the slice is
      empty, each time advancing by the element's `byte_size`. */
  function DrainItems(e: Ty, bs: seq<Byte>): (r: seq<Val>)
    requires DrainElement(e) && |bs| % StaticSize(e) == 0
    decreases e, |bs| + 1
  {
    if bs == [] then []
    else
      var k := StaticSize(e);
      ModStep(|bs|, k);
      FixedFits(e, |bs|);
      var item := Unpack(e, bs).value;
      var rest := DrainItems(e, bs[Size(item)..]);
      [item] + rest
  }

  /** What `unpack` returns is a value of the type it was asked for. */
  lemma {:induction false} UnpackTyped(t: Ty, bs: seq<Byte>)
    requires Unpackable(t) && Fits(t, |bs|)
    ensures HasType(Unpack(t, bs).value, t)
    decreases t, 1
  {
    match t
    case UTy(w) =>
      assert Pow256(1) == 256;
    case LETy(_) =>
    case ArrTy(w, n, _) => UnpackArrayBound(w, n, bs);
    case DrainTy(e) => DrainItemsTyped(e, bs);
    case RecordTy(fs) => UnpackFieldsTyped(fs, bs);
  }

  lemma {:induction false} UnpackFieldsTyped(fs: seq<Ty>, bs: seq<Byte>)
    requires forall i | 0 <= i < |fs| :: Unpackable(fs[i])
    requires FieldsFit(fs, |bs|)
    ensures forall i | 0 <= i < |fs| :: HasType(UnpackFields(fs, bs)[i], fs[i])
    decreases fs, 1
  {
    if fs != [] {
      var f := Unpack(fs[0], bs).value;
      UnpackTyped(fs[0], bs);
      UnpackFieldsTyped(fs[1..], bs[Size(f)..]);
    }
  }

  /** Every element a `DrainVec` collects has the element type. */
  lemma {:induction false} DrainItemsTyped(e: Ty, bs: seq<Byte>)
    requires DrainElement(e) && |bs| % StaticSize(e) == 0
    ensures forall i | 0 <= i < |DrainItems(e, bs)| :: HasType(DrainItems(e, bs)[i], e)
    decreases e, |bs| + 2
  {
    if bs != [] {
      ModStep(|bs|, StaticSize(e));
      FixedFits(e, |bs|);
      var item := Unpack(e, bs).value;
      UnpackTyped(e, bs);
      DrainItemsTyped(e, bs[Size(item)..]);
    }
  }

  /** A `DrainVec` collects one element per `byte_size` bytes. */
  lemma {:induction false} DrainCount(e: Ty, bs: seq<Byte>)
    requires DrainElement(e) && |bs| % StaticSize(e) == 0
    ensures |DrainItems(e, bs)| * StaticSize(e) == |bs|
    decreases |bs|
  {
    if bs != [] {
      var k := StaticSize(e);
      ModStep(|bs|, k);
      DrainFront(e, bs);
      DrainCount(e, bs[k..]);
      MulSucc(|DrainItems(e, bs[k..])|, k);
      assert |DrainItems(e, bs)| == 1 + |DrainItems(e, bs[k..])|;
    }
  }

  lemma ModStep(n: nat, k: nat)
    requires k > 0 && n > 0 && n % k == 0
    ensures k <= n && (n - k) % k == 0
  {
    var q := n / k;
    assert n == k * q;
    assert n - k == k * (q - 1);
    MulMod(k, q - 1);
  }

  lemma ModAdd(m: nat, k: nat)
    requires k > 0 && m % k == 0
    ensures (m + k) % k == 0
  {
    var q := m / k;
    assert m + k == k * (q + 1);
    MulMod(k, q + 1);
  }

  /** A multiple of `k` leaves no remainder. */
  lemma MulMod(k: nat, a: nat)
    requires k > 0
    ensures (k * a) % k == 0
  {
    var q, r := (k * a) / k, (k * a) % k;
    assert k * (a - q) == r;
    MulSmall(k, a - q);
  }

  lemma MulSmall(k: nat, m: int)
    requires k > 0 && 0 <= k * m < k
    ensures k * m == 0
  {
    if m >= 1 {
      assert k * m == k + k * (m - 1);
    }
  }

  /** The fields of a record, each unpacked from the slice the fields before it leave. */
  function UnpackFields(fs: seq<Ty>, bs: seq<Byte>): (r: seq<Val>)
    requires forall i | 0 <= i < |fs| :: Unpackable(fs[i])
    requires FieldsFit(fs, |bs|)
    ensures |r| == |fs| && SumSizes(r) == SumStatic(fs)
    decreases fs, 0
  {
    if fs == [] then []
    else
      var f := Unpack(fs[0], bs).value;
      [f] + UnpackFields(fs[1..], bs[Size(f)..])
  }

  /** The loop of `DrainVec::unpack`: while the slice is not empty, unpack one element, push it
      and re-slice past its `byte_size`. */
  method UnpackDrain(e: Ty, bs: seq<Byte>) returns (r: Result<Val, ()>)
    requires Unpackable(DrainTy(e)) && Fits(DrainTy(e), |bs|)
    ensures r.Ok? && r.value == Drain(DrainItems(e, bs))
  {
    var items: seq<Val> := [];
    var rest := bs;
    while rest != []
      invariant |rest| % StaticSize(e) == 0
      invariant items + DrainItems(e, rest) == DrainItems(e, bs)
      decreases |rest|
    {
      ModStep(|rest|, StaticSize(e));
      FixedFits(e, |rest|);
      var item := Unpack(e, rest).value;
      items := items + [item];
      rest := rest[Size(item)..];
    }
    r := Ok(Drain(items));
  }

  // ---------------------------------------------------------------------------------------
  // Round trips

  /** A packable value of an unpackable type has a type of fixed size, and its encoding is
      exactly that `byte_size` long. */
  lemma {:induction false} EncodeSize(v: Val, t: Ty)
    requires Codable(v, t)
    ensures IsFixed(t) && |Encode(v)| == StaticSize(t)
    decreases t
  {
    match t
    case UTy(_) =>
    case LETy(_) =>
    case ArrTy(_, _, _) =>
    case RecordTy(ts) => EncodeAllSize(v.fields, ts);
  }

  lemma {:induction false} EncodeAllSize(vs: seq<Val>, ts: seq<Ty>)
    requires |vs| == |ts|
    requires forall i | 0 <= i < |vs| :: HasType(vs[i], ts[i]) && Encodable(vs[i]) && Unpackable(ts[i])
    ensures (forall i | 0 <= i < |ts| :: IsFixed(ts[i])) && |EncodeAll(vs)| == SumStatic(ts)
    decreases ts
  {
    if vs != [] {
      EncodeSize(vs[0], ts[0]);
      EncodeAllSize(vs[1..], ts[1..]);
      forall i | 0 < i < |ts|
        ensures IsFixed(ts[i])
      {
        assert ts[i] == ts[1..][i - 1];
      }
    }
  }

  /** Unpacking, as type `t`, the packed bytes of a value `v` of type `t` gives `v` back,
      whatever bytes follow. */
  lemma {:induction false} UnpackEncode(v: Val, t: Ty, rest: seq<Byte>)
    requires Codable(v, t)
    ensures IsFixed(t) && |Encode(v)| == StaticSize(t)
    ensures Fits(t, |Encode(v) + rest|) && Unpack(t, Encode(v) + rest) == Ok(v)
    decreases t
  {
    EncodeSize(v, t);
    match t
    case UTy(w) => UnpackEncodeUInt(w, v.n, rest);
    case LETy(w) => UnpackEncodeLE(w, v.n, rest);
    case ArrTy(w, _, b) => UnpackEncodeArray(w, b, v.elems, rest);
    case RecordTy(ts) => UnpackFieldsEncode(v.fields, ts, rest);
  }

  lemma UnpackEncodeUInt(w: Width, n: nat, rest: seq<Byte>)
    requires n < Pow256(Bytes(w))
    ensures Fits(UTy(w), |BE(n, Bytes(w)) + rest|)
    ensures Unpack(UTy(w), BE(n, Bytes(w)) + rest) == Ok(UInt(w, n))
  {
    var bs := BE(n, Bytes(w)) + rest;
    FromBEOfBE(n, Bytes(w));
    assert bs[..Bytes(w)] == BE(n, Bytes(w));
    if w == W8 {
      assert BE(n, 1) == [n as Byte];
    }
  }

  lemma UnpackEncodeLE(w: Width, n: nat, rest: seq<Byte>)
    requires w != W8 && n < Pow256(Bytes(w))
    ensures Fits(LETy(w), |LE(n, Bytes(w)) + rest|)
    ensures Unpack(LETy(w), LE(n, Bytes(w)) + rest) == Ok(LEUInt(w, n))
  {
    var bs := LE(n, Bytes(w)) + rest;
    FromLEOfLE(n, Bytes(w));
    assert bs[..Bytes(w)] == LE(n, Bytes(w));
  }

  lemma UnpackEncodeArray(w: Width, b: bool, es: seq<nat>, rest: seq<Byte>)
    requires forall i | 0 <= i < |es| :: es[i] < Pow256(Bytes(w))
    ensures Fits(ArrTy(w, |es|, b), |BEArray(es, Bytes(w)) + rest|)
    ensures Unpack(ArrTy(w, |es|, b), BEArray(es, Bytes(w)) + rest) == Ok(Arr(w, b, es))
  {
    var k := Bytes(w);
    var bs := BEArray(es, k) + rest;
    BEArrayLength(es, k);
    var r := UnpackArray(w, |es|, bs);
    forall i | 0 <= i < |es|
      ensures r[i] == es[i]
    {
      UnpackArrayAt(w, |es|, bs, i);
      BEArrayElement(es, k, rest, i);
    }
    assert r == es;
  }

  /** Bytes `[k * i, k * i + k)` of a packed array, whatever follows it, read back as element
      `i`. */
  lemma BEArrayElement(es: seq<nat>, k: nat, rest: seq<Byte>, i: nat)
    requires i < |es| && es[i] < Pow256(k)
    ensures 0 <= k * i && k * i + k <= |BEArray(es, k) + rest|
    ensures FromBE((BEArray(es, k) + rest)[k * i .. k * i + k]) == es[i]
  {
    BEArraySliceAt(es, k, rest, i);
    FromBEOfBE(es[i], k);
  }

  lemma BEArraySliceAt(es: seq<nat>, k: nat, rest: seq<Byte>, i: nat)
    requires i < |es|
    ensures 0 <= k * i && k * i + k <= |BEArray(es, k) + rest|
    ensures (BEArray(es, k) + rest)[k * i .. k * i + k] == BE(es[i], k)
  {
    BEArrayAt(es, k, i);
    SliceOfPrefix(BEArray(es, k), rest, k * i, k * i + k);
  }

  lemma {:induction false} UnpackFieldsEncode(vs: seq<Val>, ts: seq<Ty>, rest: seq<Byte>)
    requires |vs| == |ts|
    requires forall i | 0 <= i < |vs| :: HasType(vs[i], ts[i]) && Encodable(vs[i]) && Unpackable(ts[i])
    ensures FieldsFit(ts, |EncodeAll(vs) + rest|) && UnpackFields(ts, EncodeAll(vs) + rest) == vs
    decreases ts
  {
    if vs != [] {
      assert Codable(vs[0], ts[0]);
      UnpackEncode(vs[0], ts[0], EncodeAll(vs[1..]) + rest);
      UnpackFieldsEncode(vs[1..], ts[1..], rest);
      UnpackFieldsStep(vs, ts, rest);
    }
  }

  /** The step of `UnpackFieldsEncode`: the first field read back, then the others. */
  lemma UnpackFieldsStep(vs: seq<Val>, ts: seq<Ty>, rest: seq<Byte>)
    requires vs != [] && |vs| == |ts|
    requires forall i | 0 <= i < |vs| :: HasType(vs[i], ts[i]) && Encodable(vs[i]) && Unpackable(ts[i])
    requires |Encode(vs[0])| == StaticSize(ts[0])
    requires Fits(ts[0], |Encode(vs[0]) + (EncodeAll(vs[1..]) + rest)|)
    requires Unpack(ts[0], Encode(vs[0]) + (EncodeAll(vs[1..]) + rest)) == Ok(vs[0])
    requires FieldsFit(ts[1..], |EncodeAll(vs[1..]) + rest|)
    requires UnpackFields(ts[1..], EncodeAll(vs[1..]) + rest) == vs[1..]
    ensures FieldsFit(ts, |EncodeAll(vs) + rest|) && UnpackFields(ts, EncodeAll(vs) + rest) == vs
  {
    var head, tail := Encode(vs[0]), EncodeAll(vs[1..]) + rest;
    UnpackFieldsCons(ts, head, tail);
    AppendAssoc(head, EncodeAll(vs[1..]), rest);
    ConsSplit(vs);
  }

  lemma AppendAssoc<T>(a: seq<T>, b: seq<T>, c: seq<T>)
    ensures (a + b) + c == a + (b + c)
  {
  }

  lemma ConsSplit<T>(s: seq<T>)
    requires s != []
    ensures [s[0]] + s[1..] == s
  {
  }

  /** Unpacking fields from `head + tail`, where the first field takes exactly `head`. */
  lemma UnpackFieldsCons(ts: seq<Ty>, head: seq<Byte>, tail: seq<Byte>)
    requires ts != [] && forall i | 0 <= i < |ts| :: Unpackable(ts[i])
    requires |head| == StaticSize(ts[0]) && Fits(ts[0], |head + tail|) && FieldsFit(ts[1..], |tail|)
    ensures FieldsFit(ts, |head + tail|)
    ensures UnpackFields(ts, head + tail)
            == [Unpack(ts[0], head + tail).value] + UnpackFields(ts[1..], tail)
  {
    assert (head + tail)[|head|..] == tail;
  }

  /** The other direction: packing what was unpacked from a slice gives back the first
      `byte_size` bytes of the slice, so unpacking loses nothing. */
  lemma {:induction false} EncodeUnpack(t: Ty, bs: seq<Byte>)
    requires FixedUnpackable(t) && StaticSize(t) <= |bs|
    ensures Fits(t, |bs|)
    ensures Encodable(Unpack(t, bs).value) && Encode(Unpack(t, bs).value) == bs[..StaticSize(t)]
    decreases t
  {
    FixedFits(t, |bs|);
    UnpackTyped(t, bs);
    TypedIsEncodable(Unpack(t, bs).value, t);
    match t
    case UTy(w) => EncodeUnpackUInt(w, bs);
    case LETy(w) => EncodeUnpackLE(w, bs);
    case ArrTy(w, n, b) =>
      EncodeUnpackArray(w, n, b, bs);
    case RecordTy(fs) =>
      EncodeUnpackFields(fs, bs);
  }

  lemma EncodeUnpackUInt(w: Width, bs: seq<Byte>)
    requires Fits(UTy(w), |bs|)
    ensures Encode(Unpack(UTy(w), bs).value) == bs[..Bytes(w)]
  {
    UnpackUIntValue(w, bs);
    EncodeBEValue(w, bs[..Bytes(w)]);
  }

  /** Packing back the big-endian value of `byte_size` bytes gives the bytes. */
  lemma EncodeBEValue(w: Width, s: seq<Byte>)
    requires |s| == Bytes(w)
    ensures Encodable(UInt(w, FromBE(s))) && Encode(UInt(w, FromBE(s))) == s
  {
    BEOfFromBE(s);
  }

  /** The integer an unsigned field reads is the big-endian value of its bytes, `u8` included. */
  lemma UnpackUIntValue(w: Width, bs: seq<Byte>)
    requires Bytes(w) <= |bs|
    ensures Unpack(UTy(w), bs) == Ok(UInt(w, FromBE(bs[..Bytes(w)])))
  {
    if w == W8 {
      var s := bs[..1];
      assert s[..0] == [];
      assert FromBE(s) == bs[0] as nat;
    }
  }

  lemma EncodeUnpackLE(w: Width, bs: seq<Byte>)
    requires w != W8 && Fits(LETy(w), |bs|)
    ensures Encode(Unpack(LETy(w), bs).value) == bs[..Bytes(w)]
  {
    UnpackLEValue(w, bs);
    EncodeLEValue(w, bs[..Bytes(w)]);
  }

  /** Packing back the little-endian value of `byte_size` bytes gives the bytes. */
  lemma EncodeLEValue(w: Width, s: seq<Byte>)
    requires w != W8 && |s| == Bytes(w)
    ensures Encodable(LEUInt(w, FromLE(s))) && Encode(LEUInt(w, FromLE(s))) == s
  {
    LEOfFromLE(s);
  }

  /** The integer a `LEuXX` field reads is the little-endian value of its bytes. */
  lemma UnpackLEValue(w: Width, bs: seq<Byte>)
    requires w != W8 && Bytes(w) <= |bs|
    ensures Unpack(LETy(w), bs) == Ok(LEUInt(w, FromLE(bs[..Bytes(w)])))
  {
  }

  lemma EncodeUnpackArray(w: Width, n: nat, b: bool, bs: seq<Byte>)
    requires Bytes(w) * n <= |bs|
    ensures Fits(ArrTy(w, n, b), |bs|)
    ensures BEArray(UnpackArray(w, n, bs), Bytes(w)) == bs[..Bytes(w) * n]
  {
    var k := Bytes(w);
    var es := UnpackArray(w, n, bs);
    forall i | 0 <= i < n
      ensures k * i + k <= |bs| && BE(es[i], k) == bs[k * i .. k * i + k]
    {
      UnpackArrayAt(w, n, bs, i);
      BEOfFromBE(bs[k * i .. k * i + k]);
    }
    BEArrayOfSlices(es, k, bs);
  }

  lemma {:induction false} EncodeUnpackFields(fs: seq<Ty>, bs: seq<Byte>)
    requires forall i | 0 <= i < |fs| :: Unpackable(fs[i]) && IsFixed(fs[i])
    requires SumStatic(fs) <= |bs|
    ensures FieldsFit(fs, |bs|)
    ensures var vs := UnpackFields(fs, bs);
            (forall i | 0 <= i < |vs| :: Encodable(vs[i])) && EncodeAll(vs) == bs[..SumStatic(fs)]
    decreases fs
  {
    FixedFieldsFit(fs, |bs|);
    var vs := UnpackFields(fs, bs);
    UnpackFieldsTyped(fs, bs);
    TypedIsEncodable(Record(vs), RecordTy(fs));
    if fs != [] {
      var s0 := StaticSize(fs[0]);
      var tail := bs[s0..];
      EncodeUnpack(fs[0], bs);
      EncodeUnpackFields(fs[1..], tail);
      assert vs[1..] == UnpackFields(fs[1..], tail);
      SliceSplit(bs, s0, SumStatic(fs[1..]));
    }
  }

  lemma PrefixSplit<T>(s: seq<T>, a: nat, m: nat)
    requires a + m <= |s|
    ensures s[..a + m] == s[..a] + s[a .. a + m]
  {
  }

  lemma SliceSplit<T>(s: seq<T>, a: nat, b: nat)
    requires a + b <= |s|
    ensures s[..a + b] == s[..a] + s[a..][..b]
  {
  }

  /** Every value of a fixed-size unpackable type is packable. */
  lemma {:induction false} TypedIsEncodable(v: Val, t: Ty)
    requires HasType(v, t) && FixedUnpackable(t)
    ensures Encodable(v)
    decreases t
  {
    match t
    case UTy(_) =>
    case LETy(_) =>
    case ArrTy(_, _, _) =>
    case RecordTy(ts) =>
      forall i | 0 <= i < |ts|
        ensures Encodable(v.fields[i])
      {
        TypedIsEncodable(v.fields[i], ts[i]);
      }
  }

  /** An array whose elements are the big-endian readings of consecutive `k`-byte slices packs
      back to those slices. */
  lemma {:induction false} BEArrayOfSlices(es: seq<nat>, k: nat, bs: seq<Byte>)
    requires k * |es| <= |bs|
    requires forall i | 0 <= i < |es| :: k * i + k <= |bs| && BE(es[i], k) == bs[k * i .. k * i + k]
    ensures BEArray(es, k) == bs[..k * |es|]
  {
    var n := |es|;
    if n > 0 {
      MulPred(k, n);
      BEArrayOfSlices(es[..n - 1], k, bs);
      PrefixSplit(bs, k * (n - 1), k);
    }
  }

  /** `unpack` reads only the first `byte_size` bytes of a fixed-size type. */
  lemma UnpackPrefix(t: Ty, bs: seq<Byte>)
    requires FixedUnpackable(t) && StaticSize(t) <= |bs|
    ensures Fits(t, |bs|) && Fits(t, StaticSize(t))
    ensures Unpack(t, bs) == Unpack(t, bs[..StaticSize(t)])
  {
    EncodeUnpack(t, bs);
    UnpackTyped(t, bs);
    var u := Unpack(t, bs).value;
    var s := StaticSize(t);
    var e := Encode(u);
    assert e + [] == e;
    UnpackEncode(u, t, []);
  }

  /** What `test_pack` exercises: a `DrainVec<T>` unpacks the packed bytes of a sequence of
      `T`s (a `SplatVec<T>`, say) back into that sequence. */
  lemma {:induction false} DrainOfEncodeAll(e: Ty, items: seq<Val>)
    requires Unpackable(DrainTy(e))
    requires forall i | 0 <= i < |items| :: HasType(items[i], e) && Encodable(items[i])
    ensures Fits(DrainTy(e), |EncodeAll(items)|)
    ensures Unpack(DrainTy(e), EncodeAll(items)) == Ok(Drain(items))
  {
    DrainItemsOfEncodeAll(e, items);
  }

  lemma {:induction false} DrainItemsOfEncodeAll(e: Ty, items: seq<Val>)
    requires DrainElement(e)
    requires forall i | 0 <= i < |items| :: HasType(items[i], e) && Encodable(items[i])
    ensures |EncodeAll(items)| % StaticSize(e) == 0
    ensures DrainItems(e, EncodeAll(items)) == items
  {
    if items != [] {
      CodableAt(e, items);
      DrainItemsOfEncodeAll(e, items[1..]);
      DrainStep(e, items);
    } else {
      MulMod(StaticSize(e), 0);
    }
  }

  lemma DrainStep(e: Ty, items: seq<Val>)
    requires DrainElement(e) && items != [] && Codable(items[0], e)
    requires forall i | 0 <= i < |items| :: Encodable(items[i])
    requires |EncodeAll(items[1..])| % StaticSize(e) == 0
    requires DrainItems(e, EncodeAll(items[1..])) == items[1..]
    ensures |EncodeAll(items)| % StaticSize(e) == 0
    ensures DrainItems(e, EncodeAll(items)) == items
  {
    var head, tail := Encode(items[0]), EncodeAll(items[1..]);
    UnpackEncode(items[0], e, tail);
    DrainCons(e, head, tail);
    ConsSplit(items);
  }

  lemma CodableAt(e: Ty, items: seq<Val>)
    requires DrainElement(e) && items != []
    requires forall i | 0 <= i < |items| :: HasType(items[i], e) && Encodable(items[i])
    ensures Codable(items[0], e)
  {
  }

  /** The drain of `head + tail`, where `head` is one element's bytes. */
  lemma DrainCons(e: Ty, head: seq<Byte>, tail: seq<Byte>)
    requires DrainElement(e) && |head| == StaticSize(e) && |tail| % StaticSize(e) == 0
    ensures |head + tail| % StaticSize(e) == 0 && Fits(e, |head + tail|)
    ensures DrainItems(e, head + tail) == [Unpack(e, head + tail).value] + DrainItems(e, tail)
  {
    ModAdd(|tail|, StaticSize(e));
    FixedFits(e, |head + tail|);
    assert (head + tail)[StaticSize(e)..] == tail;
  }

  /** Draining two whole runs of elements one after the other drains each in turn. */
  lemma {:induction false} DrainAppend(e: Ty, a: seq<Byte>, b: seq<Byte>)
    requires DrainElement(e) && |a| % StaticSize(e) == 0 && |b| % StaticSize(e) == 0
    ensures |a + b| % StaticSize(e) == 0
    ensures DrainItems(e, a + b) == DrainItems(e, a) + DrainItems(e, b)
    decreases |a|, 1
  {
    if a == [] {
      assert a + b == b;
    } else {
      DrainAppendStep(e, a, b);
    }
  }

  lemma {:induction false} DrainAppendStep(e: Ty, a: seq<Byte>, b: seq<Byte>)
    requires DrainElement(e) && a != [] && |a| % StaticSize(e) == 0 && |b| % StaticSize(e) == 0
    ensures |a + b| % StaticSize(e) == 0
    ensures DrainItems(e, a + b) == DrainItems(e, a) + DrainItems(e, b)
    decreases |a|, 0
  {
    var k := StaticSize(e);
    ModStep(|a|, k);
    var h, t := a[..k], a[k..];
    DrainAppend(e, t, b);
    SplitAt(a, b, k);
    DrainConsPrefix(e, a, h, t);
    DrainConsPrefix(e, a + b, h, t + b);
    ConsAssoc(Unpack(e, h).value, DrainItems(e, t), DrainItems(e, b));
  }

  lemma SplitAt<T>(a: seq<T>, b: seq<T>, k: nat)
    requires k <= |a|
    ensures a == a[..k] + a[k..] && a + b == a[..k] + (a[k..] + b)
  {
  }

  lemma ConsAssoc<T>(x: T, p: seq<T>, q: seq<T>)
    ensures [x] + (p + q) == ([x] + p) + q
  {
  }

  /** A drain whose first `byte_size` bytes are `h` starts with the element unpacked from `h`. */
  lemma DrainConsPrefix(e: Ty, s: seq<Byte>, h: seq<Byte>, t: seq<Byte>)
    requires DrainElement(e) && |h| == StaticSize(e) && |t| % StaticSize(e) == 0
    requires s == h + t
    ensures |s| % StaticSize(e) == 0 && Fits(e, |h|)
    ensures DrainItems(e, s) == [Unpack(e, h).value] + DrainItems(e, t)
  {
    DrainCons(e, h, t);
    UnpackPrefix(e, h + t);
    assert (h + t)[..StaticSize(e)] == h;
  }

  /** Element `i` of a `DrainVec` is the element unpacked from bytes `[k * i, k * i + k)`, `k`
      the element's `byte_size`: the loop collects the elements in input order. */
  lemma {:induction false} DrainItemAt(e: Ty, bs: seq<Byte>, i: nat)
    requires DrainElement(e) && |bs| % StaticSize(e) == 0 && i < |DrainItems(e, bs)|
    ensures 0 <= StaticSize(e) * i && StaticSize(e) * i + StaticSize(e) <= |bs|
    ensures Unpack(e, bs[StaticSize(e) * i .. StaticSize(e) * i + StaticSize(e)]) == Ok(DrainItems(e, bs)[i])
    decreases i
  {
    var k := StaticSize(e);
    if i == 0 {
      DrainFront(e, bs);
      assert bs[k * 0 .. k * 0 + k] == bs[..k];
    } else {
      DrainRestAt(e, bs, i);
      DrainItemAt(e, bs[k..], i - 1);
      StrideStep(bs, k, i);
    }
  }

  /** Past the first element, element `i` of a drain is element `i - 1` of the drain of the
      bytes after the first element. */
  lemma DrainRestAt(e: Ty, bs: seq<Byte>, i: nat)
    requires DrainElement(e) && |bs| % StaticSize(e) == 0 && 0 < i < |DrainItems(e, bs)|
    ensures StaticSize(e) <= |bs| && |bs[StaticSize(e)..]| % StaticSize(e) == 0
    ensures i - 1 < |DrainItems(e, bs[StaticSize(e)..])|
    ensures DrainItems(e, bs)[i] == DrainItems(e, bs[StaticSize(e)..])[i - 1]
  {
    var k := StaticSize(e);
    ModStep(|bs|, k);
    assert bs == bs[..k] + bs[k..];
    DrainConsPrefix(e, bs, bs[..k], bs[k..]);
  }

  /** The step of `DrainItemAt`: bytes `[k * (i - 1), k * i)` after the first `k` bytes are
      bytes `[k * i, k * i + k)` of the whole. */
  lemma StrideStep<T>(bs: seq<T>, k: nat, i: nat)
    requires 0 < i && k <= |bs| && 0 <= k * (i - 1) && k * (i - 1) + k <= |bs[k..]|
    ensures 0 <= k * i && k * i + k <= |bs|
    ensures bs[k..][k * (i - 1) .. k * (i - 1) + k] == bs[k * i .. k * i + k]
  {
    MulPred(k, i);
    SliceOfSuffix(bs, k, k * (i - 1), k * (i - 1) + k);
  }

  lemma SliceOfSuffix<T>(s: seq<T>, a: nat, lo: nat, hi: nat)
    requires a <= |s| && lo <= hi <= |s| - a
    ensures s[a..][lo..hi] == s[a + lo .. a + hi]
  {
  }

  /** The first element of a non-empty drain is unpacked from its first `byte_size` bytes. */
  lemma DrainFront(e: Ty, bs: seq<Byte>)
    requires DrainElement(e) && |bs| % StaticSize(e) == 0 && bs != []
    ensures StaticSize(e) <= |bs| && DrainItems(e, bs) != []
    ensures Unpack(e, bs[..StaticSize(e)]) == Ok(DrainItems(e, bs)[0])
  {
    ModStep(|bs|, StaticSize(e));
    UnpackPrefix(e, bs);
  }
}
