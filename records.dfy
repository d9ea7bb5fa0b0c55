/** The records of the crate's tests and the field-by-field code the derive macros emit for
    them: `byte_size` is the sum of the field sizes, `pack` writes a field and re-slices the
    buffer by its size, `unpack` reads a field and re-slices by the size of what it read. */
module Records {
  import opened Results
  import opened Endian
  import opened Base
  import opened Packing
  import opened Unpacking

  /** `TestStruct`: a `u8`, an `LEu32`, a `[u32; 3]` and a `Box<[u16; 2]>`. */
  const TestStructTy := RecordTy([UTy(W8), LETy(W32), ArrTy(W32, 3, false), ArrTy(W16, 2, true)])

  /** `new_test_struct()`. */
  const NewTestStruct :=
    Record([UInt(W8, 0x05), LEUInt(W32, 0xFF00AB08), Arr(W32, false, [1, 2, 3]), Arr(W16, true, [5, 6])])

  /** `TestPack`: a `u8`, an `LEu32` and a `SplatVec<u8>`, with the values `test_pack` gives. */
  const TestPackValue :=
    Record([UInt(W8, 0x05), LEUInt(W32, 0xFF00AB08),
            Splat([UInt(W8, 0x01), UInt(W8, 0x02), UInt(W8, 0xFF), UInt(W8, 0x00)])])

  /** `TestUnpack`: a `u8`, a `u32` and a trailing `DrainVec<u16>`. */
  const TestUnpackTy := RecordTy([UTy(W8)] + TailTys)

  /** The fields of `TestUnpack` after the `u8`, and after the `u32`; the field lists are
      written one field at a time, the way the derived `unpack` reads them. */
  const TailTys: seq<Ty> := [UTy(W32)] + DrainTys
  const DrainTys: seq<Ty> := [DrainTy(UTy(W16))]

  /** The bytes `pack_value` writes for `TestPackValue`. */
  const TestPackBytes: seq<Byte> := [0x05, 0x08, 0xAB, 0x00, 0xFF, 0x01, 0x02, 0xFF, 0x00]

  /** What `TestUnpack::unpack` reads from `TestPackBytes`. */
  const TestPackUnpacked :=
    Record([UInt(W8, 0x05), UInt(W32, 0x08AB00FF), Drain([UInt(W16, 0x0102), UInt(W16, 0xFF00)])])

  // ---------------------------------------------------------------------------------------
  // Records of three and four fields, taken one field at a time: a literal list is unfolded
  // through `[a] + rest`, whose tail is `rest` without further reasoning.

  lemma Typed4(a: Val, b: Val, c: Val, d: Val, s: Ty, t: Ty, u: Ty, x: Ty)
    requires HasType(a, s) && HasType(b, t) && HasType(c, u) && HasType(d, x)
    ensures HasType(Record([a, b, c, d]), RecordTy([s, t, u, x]))
  {
  }

  lemma SizesCons(a: Val, rest: seq<Val>)
    ensures SumSizes([a] + rest) == Size(a) + SumSizes(rest)
  {
    assert ([a] + rest)[1..] == rest;
  }

  lemma Sizes3(a: Val, b: Val, c: Val)
    ensures SumSizes([a, b, c]) == Size(a) + Size(b) + Size(c)
  {
    SizesCons(c, []);
    SizesCons(b, [c]);
    SizesCons(a, [b, c]);
    assert [c] + [] == [c] && [b] + [c] == [b, c] && [a] + [b, c] == [a, b, c];
  }

  lemma Sizes4(a: Val, b: Val, c: Val, d: Val)
    ensures SumSizes([a, b, c, d]) == Size(a) + Size(b) + Size(c) + Size(d)
  {
    Sizes3(b, c, d);
    SizesCons(a, [b, c, d]);
    assert [a] + [b, c, d] == [a, b, c, d];
  }

  lemma StaticsCons(a: Ty, rest: seq<Ty>)
    ensures SumStatic([a] + rest) == StaticSize(a) + SumStatic(rest)
  {
    assert ([a] + rest)[1..] == rest;
  }

  lemma Statics4(a: Ty, b: Ty, c: Ty, d: Ty)
    ensures SumStatic([a, b, c, d]) == StaticSize(a) + StaticSize(b) + StaticSize(c) + StaticSize(d)
  {
    StaticsCons(d, []);
    StaticsCons(c, [d]);
    StaticsCons(b, [c, d]);
    StaticsCons(a, [b, c, d]);
    assert [d] + [] == [d] && [c] + [d] == [c, d] && [b] + [c, d] == [b, c, d];
    assert [a] + [b, c, d] == [a, b, c, d];
  }

  /** The ranges of the 1-, 2- and 4-byte integers. */
  lemma PowFacts()
    ensures Pow256(1) == 0x100 && Pow256(2) == 0x1_0000 && Pow256(4) == 0x1_0000_0000
  {
  }

  // ---------------------------------------------------------------------------------------
  // TestStruct

  /** Every `TestStruct` packs and unpacks: its fields are all fixed-size integers and arrays. */
  lemma TestStructCodable(v: Val)
    requires HasType(v, TestStructTy)
    ensures Codable(v, TestStructTy) && Uniform(v)
  {
    assert FixedUnpackable(TestStructTy);
    TypedIsEncodable(v, TestStructTy);
  }

  /** The size of the type `TestStruct`: 1 + 4 + 12 + 4 = 21. */
  lemma TestStructTySize()
    ensures StaticSize(TestStructTy) == 21 && SplatFree(TestStructTy)
  {
    Statics4(UTy(W8), LETy(W32), ArrTy(W32, 3, false), ArrTy(W16, 2, true));
  }

  /** The derived `byte_size` of `TestStruct` is the sum of its field sizes, 1 + 4 + 12 + 4 = 21,
      whatever the field values. */
  lemma TestStructSize(v: Val)
    requires HasType(v, TestStructTy)
    ensures |v.fields| == 4
    ensures Size(v.fields[0]) == 1 && Size(v.fields[1]) == 4 && Size(v.fields[2]) == 12 && Size(v.fields[3]) == 4
    ensures Size(v) == Size(v.fields[0]) + Size(v.fields[1]) + Size(v.fields[2]) + Size(v.fields[3]) == 21
  {
    TestStructTySize();
    SizeOfTyped(v, TestStructTy);
    var fs := v.fields;
    assert fs == [fs[0], fs[1], fs[2], fs[3]];
    Sizes4(fs[0], fs[1], fs[2], fs[3]);
  }

  /** `new_test_struct()` is a `TestStruct`. */
  lemma NewTestStructTyped()
    ensures HasType(NewTestStruct, TestStructTy)
  {
    PowFacts();
    var a, b, c, d := UInt(W8, 0x05), LEUInt(W32, 0xFF00AB08), Arr(W32, false, [1, 2, 3]), Arr(W16, true, [5, 6]);
    var s, t, u, x := UTy(W8), LETy(W32), ArrTy(W32, 3, false), ArrTy(W16, 2, true);
    assert HasType(c, u) && HasType(d, x);
    Typed4(a, b, c, d, s, t, u, x);
  }

  /** `test_main`: `pack_value` followed by `TestStruct::unpack` gives back the test value. */
  method TestMain() returns (unpacked: Result<Val, ()>)
    ensures unpacked == Ok(NewTestStruct)
  {
    NewTestStructTyped();
    TestStructCodable(NewTestStruct);
    UniformIsPackable(NewTestStruct);
    var buf := PackValue(NewTestStruct);
    UnpackEncode(NewTestStruct, TestStructTy, []);
    assert buf.value + [] == buf.value;
    unpacked := Unpack(TestStructTy, buf.value);
  }

  // ---------------------------------------------------------------------------------------
  // TestPack and TestStruct read back as TestUnpack

  /** A `SplatVec<u8>` packs, has elements of one size, and its size is its length. */
  lemma ByteSplat(items: seq<Val>)
    requires forall i | 0 <= i < |items| :: items[i].UInt? && items[i].w == W8 && items[i].n < 0x100
    ensures Encodable(Splat(items)) && Uniform(Splat(items)) && Size(Splat(items)) == |items|
  {
    assert Pow256(1) == 0x100;
  }

  /** The `test_pack` value packs, its `SplatVec` holds bytes only, and its size is
      1 + 4 + 4 = 9. */
  lemma TestPackSize()
    ensures Encodable(TestPackValue) && Uniform(TestPackValue) && Size(TestPackValue) == 9
  {
    var a, b := UInt(W8, 0x05), LEUInt(W32, 0xFF00AB08);
    var items := [UInt(W8, 0x01), UInt(W8, 0x02), UInt(W8, 0xFF), UInt(W8, 0x00)];
    var c := Splat(items);
    ByteSplat(items);
    assert Encodable(a) && Encodable(b) by {
      PowFacts();
    }
    Sizes3(a, b, c);
    assert TestPackValue == Record([a, b, c]);
  }

  /** Every field of `TestUnpack` has an `unpack`; the `DrainVec<u16>` reads 2 bytes per item. */
  lemma TestUnpackable()
    ensures DrainElement(UTy(W16)) && StaticSize(UTy(W16)) == 2
    ensures forall i | 0 <= i < |DrainTys| :: Unpackable(DrainTys[i])
    ensures forall i | 0 <= i < |TailTys| :: Unpackable(TailTys[i])
    ensures Unpackable(TestUnpackTy)
  {
    PowFacts();
    assert DrainElement(UTy(W16));
    assert TailTys[1..] == DrainTys;
    assert TestUnpackTy.fields[1..] == TailTys;
  }

  /** One step of the derived `unpack`: the first field is read from the front of the slice,
      and the rest from what follows its `byte_size` bytes. */
  lemma FieldsCons(t: Ty, rest: seq<Ty>, bs: seq<Byte>)
    requires Unpackable(t) && forall i | 0 <= i < |rest| :: Unpackable(rest[i])
    requires Fits(t, |bs|) && StaticSize(t) <= |bs| && FieldsFit(rest, |bs| - StaticSize(t))
    ensures FieldsFit([t] + rest, |bs|)
    ensures UnpackFields([t] + rest, bs)
            == [Unpack(t, bs).value] + UnpackFields(rest, bs[StaticSize(t)..])
  {
    assert ([t] + rest)[0] == t && ([t] + rest)[1..] == rest;
  }

  /** What the derived `TestUnpack::unpack` reads from `bs`: the `u8` is the first byte, and the
      rest of the fields come from the bytes after it. */
  function TestUnpackOf(bs: seq<Byte>): Val
    requires |bs| >= 5 && (|bs| - 5) % 2 == 0
  {
    Record([UInt(W8, bs[0] as nat)] + TestUnpackTail(bs[1..]))
  }

  /** The `u32` is the big-endian value of the first 4 bytes, and the `DrainVec<u16>` reads every
      remaining pair of bytes. */
  function TestUnpackTail(bs: seq<Byte>): seq<Val>
    requires |bs| >= 4 && (|bs| - 4) % 2 == 0
  {
    PowFacts();
    [UInt(W32, FromBE(bs[..4]))] + [Drain(DrainItems(UTy(W16), bs[4..]))]
  }

  /** The last field of `TestUnpack`: a `DrainVec<u16>` takes whatever bytes are left. */
  lemma DrainField(bs: seq<Byte>)
    requires |bs| % 2 == 0
    ensures FieldsFit(DrainTys, |bs|)
    ensures UnpackFields(DrainTys, bs) == [Drain(DrainItems(UTy(W16), bs))]
  {
    TestUnpackable();
    var e := DrainTy(UTy(W16));
    assert FieldsFit([], |bs|) && UnpackFields([], bs[0..]) == [];
    FieldsCons(e, [], bs);
    assert [e] + [] == DrainTys;
  }

  /** The fields after the `u8`. */
  lemma TailFields(bs: seq<Byte>)
    requires |bs| >= 4 && (|bs| - 4) % 2 == 0
    ensures FieldsFit(TailTys, |bs|)
    ensures UnpackFields(TailTys, bs) == TestUnpackTail(bs)
  {
    TestUnpackable();
    DrainField(bs[4..]);
    FieldsCons(UTy(W32), DrainTys, bs);
  }

  /** The fields of `TestUnpack` read from `bs`: the `u8` from the first byte, the rest from
      the bytes after it. */
  lemma HeadField(bs: seq<Byte>)
    requires |bs| >= 5 && (|bs| - 5) % 2 == 0
    ensures FieldsFit(TestUnpackTy.fields, |bs|)
    ensures UnpackFields(TestUnpackTy.fields, bs) == [UInt(W8, bs[0] as nat)] + TestUnpackTail(bs[1..])
  {
    TestUnpackable();
    TailFields(bs[1..]);
    FieldsCons(UTy(W8), TailTys, bs);
  }

  /** `TestUnpack::unpack` reads `bs` field by field, each from the bytes the fields before it
      leave: whenever the `u8` and the `u32` leave a whole number of `u16`s, it reads the value
      `TestUnpackOf` describes. */
  lemma TestUnpackFields(bs: seq<Byte>)
    requires |bs| >= 5 && (|bs| - 5) % 2 == 0
    ensures Unpackable(TestUnpackTy) && Fits(TestUnpackTy, |bs|)
    ensures Unpack(TestUnpackTy, bs) == Ok(TestUnpackOf(bs))
  {
    TestUnpackable();
    HeadField(bs);
  }

  /** `pack` of a record or a `SplatVec` writes its members one after another. */
  lemma Encodings1(a: Val)
    requires Encodable(a)
    ensures EncodeAll([a]) == Encode(a)
  {
    assert [a][1..] == [];
    assert Encode(a) + [] == Encode(a);
  }

  lemma EncodingsCons(a: Val, rest: seq<Val>)
    requires Encodable(a) && forall i | 0 <= i < |rest| :: Encodable(rest[i])
    ensures EncodeAll([a] + rest) == Encode(a) + EncodeAll(rest)
  {
    assert ([a] + rest)[1..] == rest;
  }

  lemma Encodings3(a: Val, b: Val, c: Val)
    requires Encodable(a) && Encodable(b) && Encodable(c)
    ensures EncodeAll([a, b, c]) == Encode(a) + (Encode(b) + Encode(c))
  {
    Encodings1(c);
    EncodingsCons(b, [c]);
    EncodingsCons(a, [b, c]);
    assert [b] + [c] == [b, c] && [a] + [b, c] == [a, b, c];
  }

  lemma Encodings4(a: Val, b: Val, c: Val, d: Val)
    requires Encodable(a) && Encodable(b) && Encodable(c) && Encodable(d)
    ensures EncodeAll([a, b, c, d]) == Encode(a) + (Encode(b) + (Encode(c) + Encode(d)))
  {
    Encodings3(b, c, d);
    EncodingsCons(a, [b, c, d]);
    assert [a] + [b, c, d] == [a, b, c, d];
  }

  /** A `u8` packs as itself. */
  lemma ByteEncoding(b: Byte)
    ensures Encodable(UInt(W8, b as nat)) && Encode(UInt(W8, b as nat)) == [b]
  {
    assert Pow256(1) == 0x100;
  }

  /** Four `u8`s in a `SplatVec` pack as those four bytes. */
  lemma FourBytes(p: Byte, q: Byte, r: Byte, s: Byte)
    ensures var items := [UInt(W8, p as nat), UInt(W8, q as nat), UInt(W8, r as nat), UInt(W8, s as nat)];
      forall i | 0 <= i < |items| :: Encodable(items[i])
    ensures EncodeAll([UInt(W8, p as nat), UInt(W8, q as nat), UInt(W8, r as nat), UInt(W8, s as nat)]) == [p, q, r, s]
  {
    ByteEncoding(p);
    ByteEncoding(q);
    ByteEncoding(r);
    ByteEncoding(s);
    Encodings4(UInt(W8, p as nat), UInt(W8, q as nat), UInt(W8, r as nat), UInt(W8, s as nat));
  }

  /** The `LEu32` of `test_pack`, least significant byte first. */
  lemma LEu32Bytes()
    ensures LE(0xFF00AB08, 4) == [0x08, 0xAB, 0x00, 0xFF]
  {
  }

  /** The 9 bytes `pack_value` produces for the `test_pack` value: the `u8`, the `LEu32` least
      significant byte first, then the four splat bytes with no length prefix. */
  lemma TestPackEncoding()
    ensures Encodable(TestPackValue)
    ensures Encode(TestPackValue) == TestPackBytes
  {
    TestPackSize();
    var a, b := UInt(W8, 0x05), LEUInt(W32, 0xFF00AB08);
    var c := Splat([UInt(W8, 0x01), UInt(W8, 0x02), UInt(W8, 0xFF), UInt(W8, 0x00)]);
    FourBytes(0x01, 0x02, 0xFF, 0x00);
    ByteEncoding(0x05);
    LEu32Bytes();
    assert Pow256(4) == 0x1_0000_0000;
    Encodings3(a, b, c);
  }

  /** Two bytes read big-endian. */
  lemma FromBE2(a: Byte, b: Byte)
    ensures FromBE([a, b]) == a as nat * 256 + b as nat
  {
    assert [a, b][..1] == [a] && [a][..0] == [];
  }

  /** Four bytes read big-endian. */
  lemma FromBE4(a: Byte, b: Byte, c: Byte, d: Byte)
    ensures FromBE([a, b, c, d]) == ((a as nat * 256 + b as nat) * 256 + c as nat) * 256 + d as nat
  {
    assert [a, b, c, d][..3] == [a, b, c] && [a, b, c][..2] == [a, b];
    FromBE2(a, b);
  }

  /** A `DrainVec<u16>` reads its first two bytes as one big-endian `u16`, then goes on with
      the rest. */
  lemma U16Step(bs: seq<Byte>)
    requires |bs| >= 2 && |bs| % 2 == 0
    ensures DrainElement(UTy(W16))
    ensures DrainItems(UTy(W16), bs) == [UInt(W16, FromBE(bs[..2]))] + DrainItems(UTy(W16), bs[2..])
  {
    PowFacts();
    assert DrainElement(UTy(W16));
  }

  /** Four bytes drained as two `u16`s. */
  lemma DrainTwo(a: Byte, b: Byte, c: Byte, d: Byte)
    ensures DrainElement(UTy(W16))
    ensures DrainItems(UTy(W16), [a, b, c, d])
            == [UInt(W16, a as nat * 256 + b as nat), UInt(W16, c as nat * 256 + d as nat)]
  {
    var bs, cs: seq<Byte> := [a, b, c, d], [c, d];
    assert bs[..2] == [a, b] && bs[2..] == cs && cs[..2] == cs && cs[2..] == [];
    U16Step(bs);
    U16Step(cs);
    FromBE2(a, b);
    FromBE2(c, d);
  }

  /** The 9 packed bytes read as a `TestUnpack`: the `u8` 5, the `LEu32`'s bytes read back
      big-endian as 0x08AB00FF, and the splat bytes paired into the `u16`s 0x0102 and 0xFF00. */
  lemma TestPackRead()
    ensures TestUnpackOf(TestPackBytes) == TestPackUnpacked
  {
    var bs := TestPackBytes;
    assert bs[1..][..4] == [0x08, 0xAB, 0x00, 0xFF];
    assert bs[1..][4..] == [0x01, 0x02, 0xFF, 0x00];
    FromBE4(0x08, 0xAB, 0x00, 0xFF);
    DrainTwo(0x01, 0x02, 0xFF, 0x00);
  }

  /** `test_pack`: `pack_value` writes the `TestPack` value as its 9 bytes, and `TestUnpack::unpack`
      reads them back field by field as `TestPackUnpacked`. */
  method TestPack() returns (unpacked: Result<Val, ()>)
    ensures Encodable(TestPackValue) && Encode(TestPackValue) == TestPackBytes
    ensures unpacked == Ok(TestPackUnpacked)
  {
    TestPackSize();
    TestPackEncoding();
    UniformIsPackable(TestPackValue);
    var buf := PackValue(TestPackValue);
    TestUnpackFields(buf.value);
    TestPackRead();
    unpacked := Unpack(TestUnpackTy, buf.value);
  }

  /** Any 21 bytes read as a `TestUnpack` leave 16 bytes to the `DrainVec<u16>`: eight items. */
  lemma DrainOfTwentyOne(bs: seq<Byte>)
    requires |bs| == 21
    ensures |TestUnpackOf(bs).fields| == 3 && |TestUnpackOf(bs).fields[2].items| == 8
  {
    PowFacts();
    DrainCount(UTy(W16), bs[1..][4..]);
  }

  /** `test_unpack`: the 21 bytes of the test value are read as a `TestUnpack` field by field:
      the `u8` and the `u32` take 5 bytes and the remaining 16 are drained as eight `u16`s. */
  method TestUnpack() returns (unpacked: Result<Val, ()>)
    ensures Encodable(NewTestStruct) && |Encode(NewTestStruct)| == 21
    ensures unpacked == Ok(TestUnpackOf(Encode(NewTestStruct)))
    ensures |unpacked.value.fields| == 3 && |unpacked.value.fields[2].items| == 8
  {
    NewTestStructTyped();
    TestStructCodable(NewTestStruct);
    TestStructSize(NewTestStruct);
    UniformIsPackable(NewTestStruct);
    var buf := PackValue(NewTestStruct);
    TestUnpackFields(buf.value);
    DrainOfTwentyOne(buf.value);
    unpacked := Unpack(TestUnpackTy, buf.value);
  }
}
