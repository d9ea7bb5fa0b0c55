/** `BytePack`: writing a value into the front of a mutable byte slice, and `pack_value`, which
    allocates a zeroed buffer of exactly `byte_size` bytes and packs into it. */
module Packing {
  import opened Results
  import opened Endian
  import opened Base

  /** Values that have a `BytePack` implementation and are representable: integers fit their
      width and no `DrainVec` occurs (`DrainVec` is never packed). */
  predicate Encodable(v: Val)
  {
    match v
    case UInt(w, n) => n < Pow256(Bytes(w))
    case I32(i) => -0x8000_0000 <= i < 0x8000_0000
    case LEUInt(w, n) => w != W8 && n < Pow256(Bytes(w))
    case Arr(w, _, es) => forall i | 0 <= i < |es| :: es[i] < Pow256(Bytes(w))
    case Splat(items) => forall i | 0 <= i < |items| :: Encodable(items[i])
    case Drain(_) => false
    case Record(fs) => forall i | 0 <= i < |fs| :: Encodable(fs[i])
  }

  /** `i32::to_be_bytes` writes the 32-bit two's complement of the value. */
  const I32Modulus: nat := 0x1_0000_0000

  /** The wire layout: integers big-endian, `LEuXX` little-endian, an array as its elements'
      big-endian encodings one after the other, and a `SplatVec` or a record as its elements'
      encodings one after the other, with no length prefix and no padding. */
  function Encode(v: Val): (r: seq<Byte>)
    requires Encodable(v)
    ensures |r| == IntendedSize(v)
  {
    match v
    case UInt(w, n) => BE(n, Bytes(w))
    case I32(i) => BE(i % I32Modulus, 4)
    case LEUInt(w, n) => LE(n, Bytes(w))
    case Arr(w, _, es) => BEArrayLength(es, Bytes(w)); BEArray(es, Bytes(w))
    case Splat(items) => EncodeAll(items)
    case Record(fs) => EncodeAll(fs)
  }

  /** The encodings of `vs`, one after the other. */
  function EncodeAll(vs: seq<Val>): (r: seq<Byte>)
    requires forall i | 0 <= i < |vs| :: Encodable(vs[i])
    ensures |r| == SumIntended(vs)
  {
    if vs == [] then [] else Encode(vs[0]) + EncodeAll(vs[1..])
  }

  /** The `k`-byte big-endian encodings of `es`, one after the other. */
  function BEArray(es: seq<nat>, k: nat): (r: seq<Byte>)
  {
    if es == [] then [] else BEArray(es[..|es| - 1], k) + BE(es[|es| - 1], k)
  }

  /** An array of `n` elements takes `k * n` bytes. */
  lemma {:induction false} BEArrayLength(es: seq<nat>, k: nat)
    ensures |BEArray(es, k)| == k * |es|
    decreases |es|
  {
    if es != [] {
      BEArrayLength(es[..|es| - 1], k);
      assert k * |es| == k * (|es| - 1) + k;
    }
  }

  // ---------------------------------------------------------------------------------------
  // Layout lemmas

  /** The size and the encoding of each kind of value, one constructor at a time. */
  lemma LayoutOf(v: Val)
    requires Encodable(v)
    ensures v.UInt? ==> Size(v) == Bytes(v.w) && Encode(v) == BE(v.n, Bytes(v.w))
    ensures v.I32? ==> Size(v) == 4 && Encode(v) == BE(v.i % I32Modulus, 4)
    ensures v.LEUInt? ==> Size(v) == Bytes(v.w) && Encode(v) == LE(v.n, Bytes(v.w))
    ensures v.Arr? ==> Size(v) == Bytes(v.w) * |v.elems| && Encode(v) == BEArray(v.elems, Bytes(v.w))
    ensures v.Splat? ==> Encode(v) == EncodeAll(v.items)
    ensures v.Record? ==> Size(v) == SumSizes(v.fields) && Encode(v) == EncodeAll(v.fields)
  {
  }

  lemma {:induction false} EncodeAllAppend(a: seq<Val>, b: seq<Val>)
    requires forall i | 0 <= i < |a| :: Encodable(a[i])
    requires forall i | 0 <= i < |b| :: Encodable(b[i])
    ensures EncodeAll(a + b) == EncodeAll(a) + EncodeAll(b)
  {
    if a == [] {
      assert a + b == b;
    } else {
      assert (a + b)[1..] == a[1..] + b;
      EncodeAllAppend(a[1..], b);
    }
  }

  /** Element `i` of a `SplatVec` or of a record starts at the sum of the sizes of the elements
      before it. */
  lemma EncodeAllAt(vs: seq<Val>, i: nat)
    requires forall j | 0 <= j < |vs| :: Encodable(vs[j])
    requires i < |vs|
    ensures SumIntended(vs[..i]) + IntendedSize(vs[i]) <= |EncodeAll(vs)|
    ensures EncodeAll(vs)[SumIntended(vs[..i]) .. SumIntended(vs[..i]) + IntendedSize(vs[i])]
            == Encode(vs[i])
  {
    var before, from := vs[..i], vs[i..];
    assert vs == before + from;
    EncodeAllAppend(before, from);
    assert from[0] == vs[i] && from[1..] == vs[i + 1..];
    assert EncodeAll(from) == Encode(vs[i]) + EncodeAll(vs[i + 1..]);
    SliceMiddle(EncodeAll(before), Encode(vs[i]), EncodeAll(vs[i + 1..]));
  }

  lemma SliceMiddle<T>(a: seq<T>, b: seq<T>, c: seq<T>)
    ensures (a + (b + c))[|a| .. |a| + |b|] == b
  {
  }

  lemma {:induction false} MulStep(k: nat, i: nat, n: nat)
    requires i < n
    ensures k * i + k <= k * n
  {
    if i + 1 < n {
      MulStep(k, i, n - 1);
      assert k * n == k * (n - 1) + k;
    } else {
      assert k * n == k * i + k;
    }
  }

  /** Element `i` of an array of `k`-byte integers occupies bytes `[k * i, k * i + k)`. */
  lemma {:induction false} BEArrayAt(es: seq<nat>, k: nat, i: nat)
    requires i < |es|
    ensures 0 <= k * i && k * i + k <= |BEArray(es, k)|
    ensures BEArray(es, k)[k * i .. k * i + k] == BE(es[i], k)
  {
    var n := |es|;
    var p := BEArray(es[..n - 1], k);
    if i < n - 1 {
      BEArrayAt(es[..n - 1], k, i);
      SliceOfPrefix(p, BE(es[n - 1], k), k * i, k * i + k);
    } else {
      BEArrayLength(es[..n - 1], k);
      SliceAt(p, BE(es[i], k), k * i, k * i + k);
    }
  }

  lemma SliceOfPrefix<T>(a: seq<T>, rest: seq<T>, lo: nat, hi: nat)
    requires lo <= hi <= |a|
    ensures (a + rest)[lo..hi] == a[lo..hi]
  {
  }

  lemma SliceAt<T>(a: seq<T>, b: seq<T>, lo: int, hi: int)
    requires lo == |a| && hi == |a| + |b|
    ensures (a + b)[lo..hi] == b
  {
  }

  /** The byte-order example of the wire format: `0x0102` is `[0x01, 0x02]` as `u16` and
      `[0x02, 0x01]` as `LEu16`; `-1` as `i32` is four `0xff` bytes. */
  lemma EndianExamples()
    ensures Encode(UInt(W16, 0x0102)) == [0x01, 0x02]
    ensures Encode(LEUInt(W16, 0x0102)) == [0x02, 0x01]
    ensures Encode(I32(-1)) == [0xff, 0xff, 0xff, 0xff]
  {
    assert -1 % I32Modulus == 0xffff_ffff;
    assert BE(0xffff_ffff, 4) == [0xff, 0xff, 0xff, 0xff];
  }

  // ---------------------------------------------------------------------------------------
  // BytePack

  /** The copy loop of every integer `pack`: byte `i` of `bytes` goes to `buf[off + i]`. */
  method WriteBytes(bytes: seq<Byte>, buf: array<Byte>, off: nat)
    requires off + |bytes| <= buf.Length
    modifies buf
    ensures buf[off..off + |bytes|] == bytes
    ensures SameOutside(old(buf[..]), buf[..], off, off + |bytes|)
  {
    for i := 0 to |bytes|
      invariant buf[off..off + i] == bytes[..i]
      invariant SameOutside(old(buf[..]), buf[..], off, off + i)
    {
      buf[off + i] := bytes[i];
    }
  }

  /** `pack` for `u8` (a single store) and for `u16` .. `u128` (the big-endian bytes). */
  method PackUInt(w: Width, n: nat, buf: array<Byte>, off: nat) returns (r: Result<(), ()>)
    requires n < Pow256(Bytes(w))
    requires off + Bytes(w) <= buf.Length
    modifies buf
    ensures r == Ok(())
    ensures buf[off..off + Bytes(w)] == BE(n, Bytes(w))
    ensures SameOutside(old(buf[..]), buf[..], off, off + Bytes(w))
  {
    if w == W8 {
      OneByte(n);
      buf[off] := n as Byte;
    } else {
      WriteBytes(BE(n, Bytes(w)), buf, off);
    }
    r := Ok(());
  }

  /** A `u8` is its own single big-endian byte. */
  lemma OneByte(n: nat)
    requires n < 256
    ensures BE(n, 1) == [n as Byte]
  {
  }

  /** `pack` for `[u8; N]` and `Box<[u8; N]>`: element `i` is copied to `buf[i]`. */
  method PackByteArray(es: seq<nat>, buf: array<Byte>, off: nat) returns (r: Result<(), ()>)
    requires forall i | 0 <= i < |es| :: es[i] < 256
    requires off + |es| <= buf.Length
    modifies buf
    ensures r == Ok(())
    ensures buf[off..off + |es|] == BEArray(es, 1)
    ensures SameOutside(old(buf[..]), buf[..], off, off + |es|)
  {
    for i := 0 to |es|
      invariant buf[off..off + i] == BEArray(es[..i], 1)
      invariant SameOutside(old(buf[..]), buf[..], off, off + i)
    {
      ArrayStep(es, 1, i);
      OneByte(es[i]);
      buf[off + i] := es[i] as Byte;
    }
    assert es[..|es|] == es;
    r := Ok(());
  }

  /** `pack` for `[uXX; N]` and `Box<[uXX; N]>`: pack element `i`, then re-slice the buffer by
      that element's size. */
  method PackWideArray(w: Width, es: seq<nat>, buf: array<Byte>, off: nat) returns (r: Result<(), ()>)
    requires forall i | 0 <= i < |es| :: es[i] < Pow256(Bytes(w))
    requires off + Bytes(w) * |es| <= buf.Length
    modifies buf
    ensures r == Ok(())
    ensures buf[off..off + Bytes(w) * |es|] == BEArray(es, Bytes(w))
    ensures SameOutside(old(buf[..]), buf[..], off, off + Bytes(w) * |es|)
  {
    ghost var start := buf[..];
    ArrayStart(start, off, es, Bytes(w));
    var cur := PackElems(w, es, buf, off, start);
    ArrayDone(start, buf[..], off, cur, off + Bytes(w) * |es|, es, Bytes(w));
    r := Ok(());
  }

  /** The loop of `PackWideArray`: each element in turn, each re-slicing by its size. */
  method PackElems(w: Width, es: seq<nat>, buf: array<Byte>, off: nat, ghost start: seq<Byte>)
    returns (cur: nat)
    requires forall i | 0 <= i < |es| :: es[i] < Pow256(Bytes(w))
    requires ArrayPacked(start, buf[..], off, off, es, 0, Bytes(w))
    modifies buf
    ensures ArrayPacked(start, buf[..], off, cur, es, |es|, Bytes(w))
  {
    cur := off;
    for i := 0 to |es|
      invariant ArrayPacked(start, buf[..], off, cur, es, i, Bytes(w))
    {
      cur := PackElem(w, es, i, buf, off, cur, start);
    }
  }

  /** After `i` elements: `[off, cur)` holds their encodings, nothing outside it has changed
      since `start`, and the whole array still fits after `off`. */
  ghost predicate ArrayPacked(start: seq<Byte>, b: seq<Byte>, off: nat, cur: nat, es: seq<nat>, i: nat, k: nat)
  {
    i <= |es| && off <= cur <= |b| && off + |BEArray(es, k)| <= |b|
    && b[off..cur] == BEArray(es[..i], k) && SameOutside(start, b, off, cur)
  }

  /** Before the first element nothing is packed and nothing has changed. */
  lemma ArrayStart(start: seq<Byte>, off: nat, es: seq<nat>, k: nat)
    requires off + k * |es| <= |start|
    ensures ArrayPacked(start, start, off, off, es, 0, k)
  {
    BEArrayLength(es, k);
    assert es[..0] == [];
  }

  /** Once every element is packed, the packed prefix is the whole array encoding. */
  lemma ArrayDone(start: seq<Byte>, b: seq<Byte>, off: nat, cur: nat, hi: int, es: seq<nat>, k: nat)
    requires ArrayPacked(start, b, off, cur, es, |es|, k) && hi == off + k * |es|
    ensures hi <= |b| && b[off..hi] == BEArray(es, k)
    ensures SameOutside(start, b, off, hi)
  {
    assert es[..|es|] == es;
    BEArrayLength(es, k);
  }

  /** One step of `PackWideArray`: element `i` is packed big-endian right after the elements
      before it. */
  method PackElem(w: Width, es: seq<nat>, i: nat, buf: array<Byte>, off: nat, cur: nat,
                  ghost start: seq<Byte>)
    returns (next: nat)
    requires i < |es| && es[i] < Pow256(Bytes(w))
    requires ArrayPacked(start, buf[..], off, cur, es, i, Bytes(w))
    modifies buf
    ensures next == cur + Bytes(w)
    ensures ArrayPacked(start, buf[..], off, next, es, i + 1, Bytes(w))
  {
    var k := Bytes(w);
    ArrayStep(es, k, i);
    ghost var before := buf[..];
    var _ := PackUInt(w, es[i], buf, cur);
    Extend(start, before, buf[..], off, cur, BEArray(es[..i], k), BE(es[i], k));
    next := cur + k;
  }

  lemma ArrayStep(es: seq<nat>, k: nat, i: nat)
    requires i < |es|
    ensures |BEArray(es[..i], k)| + k <= |BEArray(es, k)|
    ensures BEArray(es[..i + 1], k) == BEArray(es[..i], k) + BE(es[i], k)
  {
    BEArrayLength(es[..i], k);
    BEArrayLength(es, k);
    MulStep(k, i, |es|);
    assert es[..i + 1][..i] == es[..i];
  }

  /** `b` agrees with `a` everywhere outside `[lo, hi)`. */
  ghost predicate SameOutside(a: seq<Byte>, b: seq<Byte>, lo: nat, hi: nat)
  {
    |a| == |b| && lo <= hi <= |a| && b[..lo] == a[..lo] && b[hi..] == a[hi..]
  }

  /** Writing `[cur, cur + k)` of a buffer whose `[off, cur)` already held a prefix appends the
      new bytes to that prefix, and the bytes changed since the start stay inside `[off, cur + k)`. */
  lemma Extend(start: seq<Byte>, before: seq<Byte>, after: seq<Byte>, off: nat, cur: nat,
                prefix: seq<Byte>, piece: seq<Byte>)
    requires off <= cur && cur + |piece| <= |before|
    requires SameOutside(start, before, off, cur) && before[off..cur] == prefix
    requires SameOutside(before, after, cur, cur + |piece|) && after[cur..cur + |piece|] == piece
    ensures after[off..cur + |piece|] == prefix + piece
    ensures SameOutside(start, after, off, cur + |piece|)
  {
    assert after[off..cur] == before[off..cur];
  }

  /** The values `pack` lays out one member after the other: every element of a `SplatVec` and
      every field of a record is `Uniform`, while the top-level `SplatVec` may hold elements of
      different sizes. Each member then advances the buffer by exactly the bytes it wrote. */
  predicate MembersUniform(v: Val)
  {
    match v
    case Splat(items) => forall i | 0 <= i < |items| :: Uniform(items[i])
    case Record(fs) => forall i | 0 <= i < |fs| :: Uniform(fs[i])
    case _ => true
  }

  /** A uniform value is laid out member by member and `pack_value` allocates exactly its
      encoding. */
  lemma UniformIsPackable(v: Val)
    requires Encodable(v) && Uniform(v)
    ensures MembersUniform(v) && Size(v) == IntendedSize(v) == |Encode(v)|
  {
    UniformSizeIsIntended(v);
  }

  /** `BytePack::pack`: writes the encoding of `v` into `buf[off..]` and leaves every other byte
      as it was. Each kind of value has its own implementation. The buffer must hold the bytes
      written, since a shorter one panics; for a uniform value these are `byte_size` bytes. */
  method Pack(v: Val, buf: array<Byte>, off: nat) returns (r: Result<(), ()>)
    requires Encodable(v) && MembersUniform(v)
    requires off + |Encode(v)| <= buf.Length
    modifies buf
    ensures r == Ok(())
    ensures buf[off..off + |Encode(v)|] == Encode(v)
    ensures SameOutside(old(buf[..]), buf[..], off, off + |Encode(v)|)
    ensures Uniform(v) ==> Size(v) == |Encode(v)|
    decreases v, 2
  {
    match v
    case UInt(_, _) => r := PackScalar(v, buf, off);
    case I32(_) => r := PackScalar(v, buf, off);
    case LEUInt(_, _) => r := PackScalar(v, buf, off);
    case Arr(_, _, _) => r := PackArray(v, buf, off);
    case Splat(_) => r := PackComposite(v, buf, off);
    case Record(_) => r := PackComposite(v, buf, off);
  }

  /** `pack` for `u8` .. `u128`, `i32` and `LEu16` .. `LEu128`. */
  method PackScalar(v: Val, buf: array<Byte>, off: nat) returns (r: Result<(), ()>)
    requires Encodable(v) && (v.UInt? || v.I32? || v.LEUInt?)
    requires off + Size(v) <= buf.Length
    modifies buf
    ensures r == Ok(())
    ensures Size(v) == |Encode(v)| && buf[off..off + Size(v)] == Encode(v)
    ensures SameOutside(old(buf[..]), buf[..], off, off + Size(v))
  {
    LayoutOf(v);
    match v
    case UInt(w, n) =>
      r := PackUInt(w, n, buf, off);
    case I32(i) =>
      WriteBytes(BE(i % I32Modulus, 4), buf, off);
      r := Ok(());
    case LEUInt(w, n) =>
      WriteBytes(LE(n, Bytes(w)), buf, off);
      r := Ok(());
  }

  /** `pack` for `[uXX; N]` and `Box<[uXX; N]>`. */
  method PackArray(v: Val, buf: array<Byte>, off: nat) returns (r: Result<(), ()>)
    requires Encodable(v) && v.Arr?
    requires off + Size(v) <= buf.Length
    modifies buf
    ensures r == Ok(())
    ensures Size(v) == |Encode(v)| && buf[off..off + Size(v)] == Encode(v)
    ensures SameOutside(old(buf[..]), buf[..], off, off + Size(v))
  {
    LayoutOf(v);
    if v.w == W8 {
      assert Pow256(1) == 256;
      r := PackByteArray(v.elems, buf, off);
    } else {
      r := PackWideArray(v.w, v.elems, buf, off);
    }
  }

  /** `pack` for `SplatVec` and for a derived record: the elements one after the other. */
  method PackComposite(v: Val, buf: array<Byte>, off: nat) returns (r: Result<(), ()>)
    requires Encodable(v) && MembersUniform(v) && (v.Splat? || v.Record?)
    requires off + |Encode(v)| <= buf.Length
    modifies buf
    ensures r == Ok(())
    ensures buf[off..off + |Encode(v)|] == Encode(v)
    ensures SameOutside(old(buf[..]), buf[..], off, off + |Encode(v)|)
    ensures Uniform(v) ==> Size(v) == |Encode(v)|
    decreases v, 1
  {
    if Uniform(v) {
      UniformSizeIsIntended(v);
    }
    match v
    case Splat(items) =>
      UniformSumsAgree(items);
      r := PackSeq(items, buf, off);
    case Record(fs) =>
      UniformSumsAgree(fs);
      r := PackSeq(fs, buf, off);
  }

  /** The loop of `SplatVec::pack` and the statement sequence of a derived record `pack`: pack
      one element, re-slice the buffer by that element's `byte_size`, go on. */
  method PackSeq(vs: seq<Val>, buf: array<Byte>, off: nat) returns (r: Result<(), ()>)
    requires forall i | 0 <= i < |vs| :: Encodable(vs[i]) && Uniform(vs[i])
    requires off + SumSizes(vs) <= buf.Length
    modifies buf
    ensures r == Ok(())
    ensures SumSizes(vs) == |EncodeAll(vs)| && buf[off..off + SumSizes(vs)] == EncodeAll(vs)
    ensures SameOutside(old(buf[..]), buf[..], off, off + SumSizes(vs))
    decreases vs, 1
  {
    UniformSumsAgree(vs);
    var cur := off;
    for i := 0 to |vs|
      invariant off <= cur && cur + SumSizes(vs[i..]) == off + SumSizes(vs)
      invariant buf[off..cur] == EncodeAll(vs[..i])
      invariant SameOutside(old(buf[..]), buf[..], off, cur)
    {
      cur := PackNext(vs, i, buf, off, cur, old(buf[..]));
    }
    assert vs[..|vs|] == vs;
    r := Ok(());
  }

  /** One step of `PackSeq`: element `i` is packed at `cur`, right after the encodings of the
      elements before it, and the buffer is re-sliced by its `byte_size`. */
  method PackNext(vs: seq<Val>, i: nat, buf: array<Byte>, off: nat, cur: nat,
                  ghost start: seq<Byte>)
    returns (next: nat)
    requires i < |vs| && forall j | 0 <= j < |vs| :: Encodable(vs[j]) && Uniform(vs[j])
    requires off <= cur && cur + SumSizes(vs[i..]) <= buf.Length
    requires buf[off..cur] == EncodeAll(vs[..i])
    requires SameOutside(start, buf[..], off, cur)
    modifies buf
    ensures next == cur + Size(vs[i]) && SumSizes(vs[i..]) == Size(vs[i]) + SumSizes(vs[i + 1..])
    ensures buf[off..next] == EncodeAll(vs[..i + 1])
    ensures SameOutside(start, buf[..], off, next)
    decreases vs, 0
  {
    var v := vs[i];
    SeqStep(vs, i);
    UniformIsPackable(v);
    ghost var before := buf[..];
    ghost var piece := Encode(v);
    var _ := Pack(v, buf, cur);
    Extend(start, before, buf[..], off, cur, EncodeAll(vs[..i]), piece);
    next := cur + Size(v);
  }

  lemma SeqStep(vs: seq<Val>, i: nat)
    requires i < |vs| && forall j | 0 <= j < |vs| :: Encodable(vs[j])
    ensures SumSizes(vs[i..]) == Size(vs[i]) + SumSizes(vs[i + 1..])
    ensures EncodeAll(vs[..i + 1]) == EncodeAll(vs[..i]) + Encode(vs[i])
  {
    assert vs[i..][1..] == vs[i + 1..];
    assert vs[..i + 1] == vs[..i] + [vs[i]];
    EncodeAllAppend(vs[..i], [vs[i]]);
    assert [vs[i]][1..] == [];
  }

  /** `pack_value`: allocates a zeroed buffer of exactly `byte_size` bytes, packs `v` into it and
      returns it. The buffer starts with the encoding of `v`, and the bytes `pack` does not
      reach stay zero. A buffer shorter than the encoding panics. */
  method PackValue(v: Val) returns (r: Result<seq<Byte>, ()>)
    requires Encodable(v) && MembersUniform(v)
    requires IntendedSize(v) <= Size(v)
    ensures r.Ok? && |r.value| == Size(v)
    ensures r.value[..IntendedSize(v)] == Encode(v)
    ensures forall i | IntendedSize(v) <= i < Size(v) :: r.value[i] == 0
    ensures Uniform(v) ==> r.value == Encode(v)
  {
    var buf := new Byte[Size(v)](_ => 0);
    ghost var zeros := buf[..];
    var _ := Pack(v, buf, 0);
    assert forall i | IntendedSize(v) <= i < Size(v) :: buf[i] == zeros[i];
    r := Ok(buf[..]);
  }

  // ---------------------------------------------------------------------------------------
  // Finding: byte_size of a SplatVec whose elements differ in size

  /** A `SplatVec<SplatVec<u8>>` holding `[1]` and `[1, 2]`. */
  const NestedSplat := Splat([Splat([UInt(W8, 1)]), Splat([UInt(W8, 1), UInt(W8, 2)])])

  /** The nested vector is a well-typed value that `pack` accepts. */
  lemma NestedSplatTyped()
    ensures HasType(NestedSplat, SplatTy(SplatTy(UTy(W8)))) && Encodable(NestedSplat)
  {
    var a, b := NestedSplat.items[0], NestedSplat.items[1];
    assert Pow256(1) == 256;
    assert HasType(a, SplatTy(UTy(W8))) && HasType(b, SplatTy(UTy(W8)));
  }

  /** `byte_size` (as written, `len * size(first)`) reports 2 bytes for the nested vector, but
      `pack` places the second element at offset 1 and it needs 2 bytes, so it writes up to
      index 2 of the 2-byte buffer `pack_value` allocated. */
  lemma NestedSplatOverrun()
    ensures var v := NestedSplat;
      && HasType(v, SplatTy(SplatTy(UTy(W8))))
      && Encodable(v) && !Uniform(v)
      && Size(v) == 2
      && Size(v.items[0]) + Size(v.items[1]) == 3 > Size(v)
      && |Encode(v)| == 3
  {
    NestedSplatTyped();
    var a, b := NestedSplat.items[0], NestedSplat.items[1];
    assert Size(a) == 1 && Size(b) == 2;
    assert IntendedSize(a) == 1 && IntendedSize(b) == 2;
    assert SumIntended([a, b]) == IntendedSize(a) + SumIntended([b]);
  }

  /** A `SplatVec<SplatVec<u8>>` holding `[1, 2]` and `[3]`. */
  const PaddedSplat := Splat([Splat([UInt(W8, 1), UInt(W8, 2)]), Splat([UInt(W8, 3)])])

  /** When the first element is the largest, `byte_size` (as written) over-reports: 2·2 = 4 bytes
      for 3 bytes of elements. The members are uniform, so `pack` writes the 3 bytes of the
      encoding and the fourth byte of the buffer stays as it was. */
  lemma NestedSplatPadding()
    ensures var v := PaddedSplat;
      && HasType(v, SplatTy(SplatTy(UTy(W8))))
      && Encodable(v) && !Uniform(v) && MembersUniform(v)
      && Size(v) == 4 && IntendedSize(v) == 3
      && Encode(v) == [1, 2, 3]
  {
    PaddedSplatTyped();
    PaddedSplatSizes();
    PaddedSplatEncoding();
  }

  lemma PaddedSplatSizes()
    ensures !Uniform(PaddedSplat) && MembersUniform(PaddedSplat)
    ensures Size(PaddedSplat) == 4 && IntendedSize(PaddedSplat) == 3
  {
    var a, b := Splat([UInt(W8, 1), UInt(W8, 2)]), Splat([UInt(W8, 3)]);
    assert PaddedSplat.items == [a, b];
    assert Uniform(a) by {
      assert a.items[1] == UInt(W8, 2);
    }
    assert Uniform(b);
    assert Size(a) == 2 && Size(b) == 1 && Size(PaddedSplat) == 2 * Size(a);
    assert IntendedSize(a) == 2 && IntendedSize(b) == 1;
    assert SumIntended([a, b]) == IntendedSize(a) + SumIntended([b]);
  }

  lemma PaddedSplatEncoding()
    ensures Encodable(PaddedSplat) && Encode(PaddedSplat) == [1, 2, 3]
  {
    PaddedSplatTyped();
    var a, b := PaddedSplat.items[0], PaddedSplat.items[1];
    OneByte(1);
    OneByte(2);
    OneByte(3);
    EncodePair(a.items[0], a.items[1]);
    EncodePair(a, b);
    EncodeOne(b.items[0]);
  }

  lemma PaddedSplatTyped()
    ensures HasType(PaddedSplat, SplatTy(SplatTy(UTy(W8)))) && Encodable(PaddedSplat)
  {
    var a, b := PaddedSplat.items[0], PaddedSplat.items[1];
    assert Pow256(1) == 256;
    assert HasType(a, SplatTy(UTy(W8))) && HasType(b, SplatTy(UTy(W8)));
  }

  lemma EncodeOne(x: Val)
    requires Encodable(x)
    ensures EncodeAll([x]) == Encode(x)
  {
    assert [x][1..] == [];
  }

  lemma EncodePair(x: Val, y: Val)
    requires Encodable(x) && Encodable(y)
    ensures EncodeAll([x, y]) == Encode(x) + Encode(y)
  {
    assert [x, y][1..] == [y];
    EncodeOne(y);
  }

  /** `pack_value` of the over-reported vector returns `Ok` with its 3 bytes and a trailing zero,
      instead of panicking. */
  method PackPaddedSplat() returns (r: Result<seq<Byte>, ()>)
    ensures r == Ok([1, 2, 3, 0])
  {
    NestedSplatPadding();
    r := PackValue(PaddedSplat);
    assert IntendedSize(PaddedSplat) <= 3 < Size(PaddedSplat);
    assert r.value[..3] == [1, 2, 3] && r.value[3] == 0;
    assert r.value == r.value[..3] + [r.value[3]];
    assert r.value == [1, 2, 3, 0];
  }
}
