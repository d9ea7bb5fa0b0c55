/** The types the codec knows, their values, and `byte_size`: the exact width of a value's
    encoding. */
module Base {
  import opened Endian

  /** Widths of the unsigned integer types `u8` .. `u128`. */
  datatype Width = W8 | W16 | W32 | W64 | W128

  /** Number of bytes of an unsigned integer of width `w`. */
  function Bytes(w: Width): nat
  {
    match w
    case W8 => 1
    case W16 => 2
    case W32 => 4
    case W64 => 8
    case W128 => 16
  }

  /** The types of the codec: big-endian `uXX`, `i32`, the little-endian wrappers `LEu16` ..
      `LEu128`, fixed arrays `[uXX; N]` (boxed or not), `SplatVec<T>`, `DrainVec<T>` and records
      whose fields are listed in declaration order. */
  datatype Ty =
    | UTy(w: Width)
    | I32Ty
    | LETy(w: Width)
    | ArrTy(w: Width, n: nat, boxed: bool)
    | SplatTy(elem: Ty)
    | DrainTy(elem: Ty)
    | RecordTy(fields: seq<Ty>)

  /** Values. Integers carry their width, so that the size of a value can be computed from the
      value alone, as `byte_size(&self)` does. */
  datatype Val =
    | UInt(w: Width, n: nat)
    | I32(i: int)
    | LEUInt(w: Width, n: nat)
    | Arr(w: Width, boxed: bool, elems: seq<nat>)
    | Splat(items: seq<Val>)
    | Drain(items: seq<Val>)
    | Record(fields: seq<Val>)

  /** `v` is a value of type `t`: integers fit their width, arrays have exactly `N` elements,
      every element of a vector has the element type, and record fields match field types. */
  predicate HasType(v: Val, t: Ty)
  {
    match t
    case UTy(w) => v.UInt? && v.w == w && v.n < Pow256(Bytes(w))
    case I32Ty => v.I32? && -0x8000_0000 <= v.i < 0x8000_0000
    case LETy(w) => v.LEUInt? && v.w == w && w != W8 && v.n < Pow256(Bytes(w))
    case ArrTy(w, n, b) =>
      v.Arr? && v.w == w && v.boxed == b && |v.elems| == n
      && forall i | 0 <= i < n :: v.elems[i] < Pow256(Bytes(w))
    case SplatTy(e) => v.Splat? && forall i | 0 <= i < |v.items| :: HasType(v.items[i], e)
    case DrainTy(e) => v.Drain? && forall i | 0 <= i < |v.items| :: HasType(v.items[i], e)
    case RecordTy(ts) =>
      v.Record? && |v.fields| == |ts| && forall i | 0 <= i < |ts| :: HasType(v.fields[i], ts[i])
  }

  /** `byte_size`: a constant per integer type, `w * N` for an array (`N` for `[u8; N]`), 0 for
      a `DrainVec`, `len * size(first)` for a non-empty `SplatVec`, and the sum of the field
      sizes for a record. */
  function Size(v: Val): nat
  {
    match v
    case UInt(w, _) => Bytes(w)
    case I32(_) => 4
    case LEUInt(w, _) => Bytes(w)
    case Arr(w, _, es) => Bytes(w) * |es|
    case Drain(_) => 0
    case Splat(items) => if items == [] then 0 else |items| * Size(items[0])
    case Record(fs) => SumSizes(fs)
  }

  /** Sum of the sizes of `vs`. */
  function SumSizes(vs: seq<Val>): nat
  {
    if vs == [] then 0 else Size(vs[0]) + SumSizes(vs[1..])
  }

  /** Every `SplatVec` inside `v` holds elements of one and the same size. */
  predicate Uniform(v: Val)
  {
    match v
    case Splat(items) =>
      forall i | 0 <= i < |items| :: Uniform(items[i]) && Size(items[i]) == Size(items[0])
    case Drain(items) => forall i | 0 <= i < |items| :: Uniform(items[i])
    case Record(fs) => forall i | 0 <= i < |fs| :: Uniform(fs[i])
    case _ => true
  }

  /** The size `byte_size` is meant to report: like `Size`, except that a `SplatVec` occupies the
      sum of its element sizes, whatever they are. */
  function IntendedSize(v: Val): nat
  {
    match v
    case Splat(items) => SumIntended(items)
    case Record(fs) => SumIntended(fs)
    case _ => Size(v)
  }

  function SumIntended(vs: seq<Val>): nat
  {
    if vs == [] then 0 else IntendedSize(vs[0]) + SumIntended(vs[1..])
  }

  /** Types whose values all have one size: every type except the vectors. */
  predicate IsFixed(t: Ty)
  {
    match t
    case SplatTy(_) => false
    case DrainTy(_) => false
    case RecordTy(ts) => forall i | 0 <= i < |ts| :: IsFixed(ts[i])
    case _ => true
  }

  /** The size of every value of a type without `SplatVec` (a `DrainVec` counts 0). */
  function StaticSize(t: Ty): nat
  {
    match t
    case UTy(w) => Bytes(w)
    case I32Ty => 4
    case LETy(w) => Bytes(w)
    case ArrTy(w, n, _) => Bytes(w) * n
    case SplatTy(_) => 0
    case DrainTy(_) => 0
    case RecordTy(ts) => SumStatic(ts)
  }

  function SumStatic(ts: seq<Ty>): nat
  {
    if ts == [] then 0 else StaticSize(ts[0]) + SumStatic(ts[1..])
  }

  /** `t` contains no `SplatVec`. */
  predicate SplatFree(t: Ty)
  {
    match t
    case SplatTy(_) => false
    case DrainTy(e) => SplatFree(e)
    case RecordTy(ts) => forall i | 0 <= i < |ts| :: SplatFree(ts[i])
    case _ => true
  }

  // ---------------------------------------------------------------------------------------
  // Properties of byte_size

  /** The widths of the primitive types: `u8` 1, `u16` 2, `u32` 4, `u64` 8, `u128` 16, `i32` 4,
      and each `LEuXX` as wide as `uXX`, whatever the value. */
  lemma PrimitiveWidths(n: nat, i: int)
    ensures Size(UInt(W8, n)) == 1 && Size(UInt(W16, n)) == 2 && Size(UInt(W32, n)) == 4
    ensures Size(UInt(W64, n)) == 8 && Size(UInt(W128, n)) == 16 && Size(I32(i)) == 4
    ensures forall w :: Size(LEUInt(w, n)) == Size(UInt(w, n))
  {
  }

  /** `[u8; N]` occupies `N` bytes, `[uXX; N]` occupies `(XX / 8) * N`, and the boxed array
      exactly as many as the unboxed one. */
  lemma ArraySizes(w: Width, es: seq<nat>)
    ensures Size(Arr(W8, false, es)) == |es|
    ensures Size(Arr(w, true, es)) == Size(Arr(w, false, es)) == Bytes(w) * |es|
  {
  }

  /** A `DrainVec` reports size 0, whatever it holds. */
  lemma DrainSizeIsZero(items: seq<Val>)
    ensures Size(Drain(items)) == 0
  {
  }

  /** Values of one splat-free type all have the size of that type: the size of a value of such
      a type never depends on the value. */
  lemma {:induction false} SizeOfTyped(v: Val, t: Ty)
    requires HasType(v, t) && SplatFree(t)
    ensures Size(v) == StaticSize(t)
    decreases v
  {
    match (v, t)
    case (Record(fs), RecordTy(ts)) => SumSizesOfTyped(fs, ts);
    case _ =>
  }

  lemma {:induction false} SumSizesOfTyped(vs: seq<Val>, ts: seq<Ty>)
    requires |vs| == |ts|
    requires forall i | 0 <= i < |vs| :: HasType(vs[i], ts[i]) && SplatFree(ts[i])
    ensures SumSizes(vs) == SumStatic(ts)
    decreases vs
  {
    if vs != [] {
      SizeOfTyped(vs[0], ts[0]);
      SumSizesOfTyped(vs[1..], ts[1..]);
    }
  }

  /** A `SplatVec` whose elements all have size `s` has size `len * s`, the sum of its element
      sizes. */
  lemma {:induction false} SplatSizeIsSum(items: seq<Val>)
    requires forall i | 0 <= i < |items| :: Size(items[i]) == Size(items[0])
    ensures Size(Splat(items)) == SumSizes(items)
  {
    if items != [] {
      SumOfEqualSizes(items, Size(items[0]));
    }
  }

  lemma {:induction false} SumOfEqualSizes(vs: seq<Val>, s: nat)
    requires forall i | 0 <= i < |vs| :: Size(vs[i]) == s
    ensures SumSizes(vs) == |vs| * s
  {
    if vs != [] {
      SumOfEqualSizes(vs[1..], s);
      MulSucc(|vs| - 1, s);
    }
  }

  lemma MulSucc(a: nat, k: nat)
    ensures (a + 1) * k == k + a * k && 0 <= a * k
  {
  }
  lemma MulPred(k: nat, i: nat)
    requires i > 0
    ensures k * i == k * (i - 1) + k && 0 <= k * (i - 1)
  {
  }

  /** On values whose splats are uniform, the size as written is the intended size. */
  lemma {:induction false} UniformSizeIsIntended(v: Val)
    requires Uniform(v)
    ensures Size(v) == IntendedSize(v)
    decreases v
  {
    match v
    case Splat(items) =>
      UniformSumsAgree(items);
      SplatSizeIsSum(items);
    case Record(fs) => UniformSumsAgree(fs);
    case _ =>
  }

  lemma {:induction false} UniformSumsAgree(vs: seq<Val>)
    requires forall i | 0 <= i < |vs| :: Uniform(vs[i])
    ensures SumSizes(vs) == SumIntended(vs)
    decreases vs
  {
    if vs != [] {
      UniformSizeIsIntended(vs[0]);
      UniformSumsAgree(vs[1..]);
    }
  }

  /** Sums over a concatenation split into the sums of the parts. */
  lemma {:induction false} SumSizesAppend(a: seq<Val>, b: seq<Val>)
    ensures SumSizes(a + b) == SumSizes(a) + SumSizes(b)
  {
    if a == [] {
      assert a + b == b;
    } else {
      assert (a + b)[1..] == a[1..] + b;
      SumSizesAppend(a[1..], b);
    }
  }

  lemma {:induction false} SumIntendedAppend(a: seq<Val>, b: seq<Val>)
    ensures SumIntended(a + b) == SumIntended(a) + SumIntended(b)
  {
    if a == [] {
      assert a + b == b;
    } else {
      assert (a + b)[1..] == a[1..] + b;
      SumIntendedAppend(a[1..], b);
    }
  }

  lemma {:induction false} SumStaticAppend(a: seq<Ty>, b: seq<Ty>)
    ensures SumStatic(a + b) == SumStatic(a) + SumStatic(b)
  {
    if a == [] {
      assert a + b == b;
    } else {
      assert (a + b)[1..] == a[1..] + b;
      SumStaticAppend(a[1..], b);
    }
  }
}
