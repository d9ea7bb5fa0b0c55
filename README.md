# bytepack in Dafny

A model of the runtime codec of the `bytepack` crate. It covers three capabilities over a small universe of types:

- `ByteSize::byte_size`: the exact width of a value's encoding;
- `BytePack::pack` and `pack_value`: writing a value into the front of a byte slice;
- `ByteUnpack::unpack`: reading a value from the front of a byte slice.

The types are:

- big-endian `u8` .. `u128` and `i32`;
- the little-endian wrappers `LEu16` .. `LEu128`;
- fixed arrays `[uXX; N]` and `Box<[uXX; N]>`;
- `SplatVec<T>`, elements with no length prefix;
- `DrainVec<T>`, which reads to the end of the input;
- records (structs), which the derive macros compose field by field.

The model also covers the lowercase hex renderer, and the records and tests of the crate's own test module.

Modules, one per source file:

| module | file | models |
|---|---|---|
| `Results` | `results.dfy` | `Result<T, E>`. |
| `Endian` | `endian.dfy` | Bytes (`newtype Byte = 0..255`). Big- and little-endian conversion (`to_be_bytes`, `from_be_bytes`, and their LE counterparts) with their inverse laws. |
| `Base` | `base.dfy` | The type universe `Ty` and values `Val`. `byte_size` as written (`Size`), the size of a type (`StaticSize`), and the size laws of `src/base.rs`. |
| `Packing` | `packing.dfy` | The byte layout each `pack` produces (`Encode`), and every `pack` as a method that writes into an `array<Byte>` at an offset. The offset stands for the re-sliced `&mut buf[k..]`. Also `pack_value`. |
| `Unpacking` | `unpacking.dfy` | `unpack` as a function of the type and the input slice. The `DrainVec` loop as a method proved equal to that function. The round-trip and prefix laws. |
| `Hex` | `hex.dfy` | `hexchar_repr`, `u8_to_hex_string`, and `encode_as_hex_string`: a loop proved equal to a recursive definition, with a decoder showing the text determines the bytes. |
| `Records` | `records.dfy` | `TestStruct`, `TestPack`, `TestUnpack`, `new_test_struct()` and the three tests of `src/lib.rs`. |

How the source's behaviour is rendered:

- Every implementation in the crate returns `Ok`. Its only failure is a panic: an out-of-bounds index on a short buffer, or a trailing partial `DrainVec` element. Panics are preconditions here, for example `off + |Encode(v)| <= buf.Length` and `Fits(t, |bs|)`. Every operation is proved to return `Ok`.
- `Size` is `byte_size` exactly as written. For a `SplatVec` that is `len * byte_size(first)`.

## Model

| member | source | states |
|---|---|---|
| Base.Size | src/base.rs:19-160 | `ByteSize::byte_size` as written, per impl: 1/2/4/8/16 for `u8` .. `u128` and the `LEuXX` of that width, 4 for `i32`, w·N for `[uXX; N]` and its box, 0 for `DrainVec`, `len * byte_size(first)` for a non-empty `SplatVec` and 0 for an empty one. For a derived record it is the sum of the field sizes. |
| Base.PrimitiveWidths | src/base.rs:23-160 | `u8`/`u16`/`u32`/`u64`/`u128` have size 1/2/4/8/16 and `i32` has size 4, whatever the value. Every `LEuXX` has the size of the native integer of its width. |
| Base.ArraySizes | src/base.rs:77-135 | `[u8; N]` has size N. `[uXX; N]` has size (width in bytes)·N. The boxed array has exactly the size of the unboxed one. |
| Base.DrainSizeIsZero | src/base.rs:137-144 | The size of any `DrainVec` is 0, whatever it holds. |
| Base.SplatSizeIsSum | src/base.rs:146-155 | When all elements have the size of the first, `len * size(first)` equals the sum of the element sizes. The empty vector gets 0. |
| Base.UniformSizeIsIntended | src/base.rs:146-155 | For a value whose every `SplatVec` has elements of one size, `byte_size` as written equals the corrected size `IntendedSize`, the sum of the parts. |
| Base.SizeOfTyped | src/base.rs:19-135 | A value of a type without `SplatVec` has the type's size. The size is determined by the type alone. |
| Base.SumSizesOfTyped | src/base.rs:19-135 | Field by field, the sizes of the field values sum to the sum of the field types' sizes. |
| Endian.FromBEOfBE | src/unpack.rs:15-41 | Reading big-endian inverts writing big-endian, for every value that fits in k bytes. |
| Endian.BEOfFromBE | src/unpack.rs:15-41 | Writing back the big-endian value of k bytes gives those bytes. |
| Endian.FromLEOfLE | src/unpack.rs:43-56 | Reading little-endian inverts writing little-endian. |
| Endian.LEOfFromLE | src/unpack.rs:43-56 | Writing back the little-endian value of k bytes gives those bytes. |
| Endian.LEIsReversedBE | src/pack.rs:65-82 | The little-endian bytes are the big-endian bytes of the same integer, reversed. |
| Packing.EncodeAll | src/pack.rs:128-138 | The `SplatVec` loop and the derived record `pack`: the members' encodings one after the other, with no prefix or padding. Its length is the sum of the members' intended sizes. |
| Packing.BEArray | src/pack.rs:84-126 | The array layout: each element's `k`-byte big-endian encoding, in index order, with `k` = 1 for `[u8; N]`. |
| Packing.Encode | src/pack.rs:128-138 | The layout `pack` writes: integers BE, `LEuXX` LE, arrays element by element, `SplatVec` and records member by member with no prefix. Its length is the sum of the parts (`IntendedSize`). |
| Packing.EndianExamples | src/pack.rs:14-149 | 0x0102 as `u16` packs as [0x01, 0x02]. As `LEu16` it packs as [0x02, 0x01]. -1 as `i32` packs as four 0xff bytes. |
| Packing.BEArrayLength | src/pack.rs:102-126 | An array of N elements of w bytes packs to w·N bytes. |
| Packing.BEArrayAt | src/pack.rs:102-126 | Element i of an array is at offset w·i, big-endian. |
| Packing.EncodeAllAt | src/pack.rs:128-138 | Element i of a `SplatVec` (or field i of a record) starts at the sum of the sizes of the elements before it. |
| Packing.EncodeAllAppend | src/pack.rs:128-138 | Packing a concatenation of elements packs each part one after the other. |
| Packing.WriteBytes | src/pack.rs:23-29 | The copy loop writes the given bytes at the offset and changes nothing else. |
| Packing.PackUInt | src/pack.rs:14-63 | `pack` of `u8` .. `u128` returns `Ok`. It writes the BE bytes at the offset (for `u8`, the value itself in one byte) and leaves every other byte as it was. |
| Packing.PackByteArray | src/pack.rs:84-100 | `pack` of `[u8; N]` / `Box<[u8; N]>` copies element i to byte i, returns `Ok`, and touches nothing else. |
| Packing.PackWideArray | src/pack.rs:102-126 | `pack` of `[uXX; N]` / `Box<[uXX; N]>`: a loop that packs an element and moves past its size. It writes each element BE at w·i, returns `Ok`, and touches nothing else. |
| Packing.PackElem | src/pack.rs:107-112 | One iteration of the array loop: the bytes written so far are the layout of the elements before, extended by this element. |
| Packing.PackScalar | src/pack.rs:14-149 | `pack` of integers, `i32` and `LEuXX` writes exactly `Encode(v)` into `byte_size` bytes, returns `Ok`, and leaves all other bytes. |
| Packing.PackArray | src/pack.rs:84-126 | `pack` of any array writes exactly `Encode(v)` into `byte_size` bytes and leaves all other bytes. |
| Packing.PackComposite | src/pack.rs:128-138 | `pack` of a `SplatVec` or a record whose members are uniform writes its members in order with no prefix, exactly `Encode(v)`, and changes nothing else. When the value itself is uniform, that is `byte_size` bytes. |
| Packing.PackSeq | src/lib.rs:97-109 | The field-sequential pack (write a field, re-slice by its `byte_size`) writes the concatenated encodings within the sum of the sizes and leaves every other byte. |
| Packing.PackElems | src/pack.rs:107-112 | The array loop: after it, the bytes from the offset are the big-endian encodings of all elements, and nothing else changed. |
| Packing.PackNext | src/pack.rs:130-135 | One step of that loop: the bytes written so far are the encodings of the members before, and the next member follows at the sum of their sizes. |
| Packing.Pack | src/pack.rs:10-12 | `BytePack::pack` for every value whose members are uniform (a top-level `SplatVec` may mix element sizes): returns `Ok`, writes `Encode(v)` at the offset, and changes nothing outside those bytes. For a uniform value these are `byte_size` bytes. Requires the buffer to hold the bytes written, since a shorter one panics. |
| Packing.PackValue | src/pack.rs:3-8 | `pack_value` returns `Ok` with a buffer of exactly `byte_size` bytes. It starts with the encoding, and any bytes beyond it stay zero. For a uniform value the buffer is exactly the encoding. Requires `byte_size` to cover the encoding, since otherwise `pack` panics. |
| Packing.UniformIsPackable | src/base.rs:146-155 | A uniform value has uniform members, and its `byte_size` equals the length of its encoding. |
| Packing.NestedSplatOverrun | src/base.rs:146-155 | A `SplatVec<SplatVec<u8>>` of `[1]` and `[1, 2]` is a valid value. `byte_size` reports 2, but its elements need 1 + 2 = 3 bytes, and its encoding is 3 bytes long. |
| Packing.NestedSplatPadding | src/base.rs:146-155 | A `SplatVec<SplatVec<u8>>` of `[1, 2]` and `[3]` is a valid value whose members are uniform. `byte_size` reports 4, but its encoding is the 3 bytes 1, 2, 3. |
| Packing.PackPaddedSplat | src/pack.rs:3-8 | `pack_value` of that vector returns `Ok([1, 2, 3, 0])`: the encoding followed by one zero byte it never writes. |
| Unpacking.FixedFits | src/unpack.rs:9-102 | For fixed-size types, a slice is long enough exactly when it holds the type's size. |
| Unpacking.FixedFieldsFit | src/lib.rs:111-126 | For fixed-size fields, the record fits exactly when the slice holds the sum of the field sizes. |
| Unpacking.Unpack | src/unpack.rs:5-7 | `unpack` returns `Ok`, and the result's `byte_size` is the type's size. |
| Unpacking.UnpackTyped | src/unpack.rs:5-7 | What `unpack` returns is a value of the requested type. |
| Unpacking.UnpackUIntValue | src/unpack.rs:9-41 | `u8` unpack is `buf[0]`. `uXX` unpack is the BE value of the first w bytes. |
| Unpacking.UnpackArray | src/unpack.rs:58-102 | `[u8; N]` / `[uXX; N]` unpack and their boxes, `array::from_fn` over the element indices: N elements, element i being `ElementAt`. |
| Unpacking.ElementAt | src/unpack.rs:58-102 | Element i of an array unpack: `buf[i]` for `u8`, else `from_be_bytes` of bytes [stride·i, stride·i + stride). |
| Unpacking.UnpackArrayAt | src/unpack.rs:64-79 | Element i of an unpacked `[uXX; N]` is the BE value of bytes [stride·i, stride·i + stride). |
| Unpacking.UnpackArrayBound | src/unpack.rs:64-79 | Every unpacked array element fits its width. |
| Unpacking.UnpackEncodeUInt | src/unpack.rs:15-41 | `unpack(pack(x)) == x` for every BE integer width, whatever follows in the buffer. |
| Unpacking.UnpackEncodeLE | src/unpack.rs:43-56 | `unpack(pack(x)) == x` for every `LEuXX`. |
| Unpacking.UnpackEncodeArray | src/unpack.rs:87-102 | Fixed arrays, boxed or not, round-trip through the sequential pack layout and the strided unpack. |
| Unpacking.UnpackEncode | src/unpack.rs:9-102 | For every packable value of an unpackable type: its encoding has the type's size, and unpacking the encoding followed by anything gives back the value. |
| Unpacking.EncodeUnpack | src/unpack.rs:9-102 | The other direction: for a fixed-size type, packing what unpack read gives back exactly the first `byte_size` bytes. |
| Unpacking.UnpackPrefix | src/unpack.rs:9-102 | Prefix law: a fixed-size unpack reads only the bytes below the type's size. |
| Unpacking.EncodeSize | src/unpack.rs:9-102 | A packable value of an unpackable type has a type of fixed size, and its encoding is that long. |
| Unpacking.TypedIsEncodable | src/unpack.rs:9-102 | Every value of a fixed, unpackable type can be packed. |
| Unpacking.UnpackFields | src/lib.rs:111-126 | Record unpack reads each field from the rest of the slice and advances by that field's `byte_size`. It yields one value per field, with sizes summing to the fields' sizes. |
| Unpacking.UnpackFieldsTyped | src/lib.rs:111-126 | Each field read has its field's type. |
| Unpacking.UnpackFieldsEncode | src/lib.rs:111-126 | Record round trip: unpacking the concatenated field encodings, followed by anything, gives back the fields. |
| Unpacking.EncodeUnpackFields | src/lib.rs:111-126 | Reverse record round trip: re-packing the fields read from a slice gives back its first `sum of sizes` bytes. |
| Unpacking.DrainItems | src/unpack.rs:104-119 | What the `DrainVec` loop collects: nothing for an empty slice, otherwise the element unpacked from the front followed by the items of the bytes after its `byte_size`. |
| Unpacking.UnpackDrain | src/unpack.rs:104-119 | The `DrainVec` while-loop (unpack an element, push, advance by its size until empty) returns `Ok` with exactly the items of `DrainItems`. |
| Unpacking.DrainCount | src/unpack.rs:104-119 | On k·w bytes, with w the element size, the drain returns exactly k elements. The empty input gives none. |
| Unpacking.DrainItemsTyped | src/unpack.rs:104-119 | Every drained item has the element type. |
| Unpacking.DrainItemAt | src/unpack.rs:110-115 | Drained item i is the unpack of bytes [w·i, w·i + w), in input order. |
| Unpacking.DrainFront | src/unpack.rs:110-115 | On a non-empty input, the first drained item is the unpack of the first w bytes. |
| Unpacking.DrainAppend | src/unpack.rs:110-115 | Draining a concatenation drains each part in turn. |
| Unpacking.DrainItemsOfEncodeAll | src/unpack.rs:105-118 | Draining the `SplatVec` encoding of a sequence gives back that sequence. |
| Unpacking.DrainOfEncodeAll | src/unpack.rs:105-118 | `DrainVec::unpack` of the `SplatVec` encoding of a sequence returns `Ok` with that sequence. |
| Hex.HexChar | src/hex.rs:7-27 | 0–9 map to '0'–'9' and 10–15 to 'a'–'f'. Any value above 15 gives `InvalidHexChar(b)`. The result is `Ok` exactly when b < 16. |
| Hex.DigitValueOfHexChar | src/hex.rs:7-27 | Every digit `hexchar_repr` produces names its value back, so distinct nibbles give distinct digits. |
| Hex.NibbleMasks | src/hex.rs:31-32 | `(b & 0xf0) >> 4` is `b / 16` and `b & 0x0f` is `b % 16` for every byte. |
| Hex.ByteToHex | src/hex.rs:30-34 | `u8_to_hex_string` is two characters: the high-nibble digit, then the low-nibble digit. Both calls are `Ok`, so the `expect` never fires. |
| Hex.ByteOfHex | src/hex.rs:30-34 | The two characters determine the byte: high·16 + low == b. |
| Hex.HexString | src/hex.rs:36-45 | The text is 2·\|bytes\| characters long. |
| Hex.EncodeHex | src/hex.rs:36-45 | The fold that pushes both characters of each byte builds exactly `HexString(bytes)`. |
| Hex.HexStringAt | src/hex.rs:36-45 | Characters 2i and 2i+1 are the two characters of byte i, in input order. |
| Hex.DecodeHexString | src/hex.rs:36-45 | Decoding the text gives back the bytes, so `encode_as_hex_string` is injective. |
| Records.TestStructTySize | src/lib.rs:29-35 | The type `TestStruct` has size 1 + 4 + 12 + 4 = 21 and contains no `SplatVec`. |
| Records.TestStructSize | src/lib.rs:29-35 | The derived `byte_size` of every `TestStruct` is the sum of its field sizes 1, 4, 12 and 4: 21. |
| Records.TestStructCodable | src/lib.rs:29-35 | Every `TestStruct` packs and unpacks. |
| Records.NewTestStructTyped | src/lib.rs:37-44 | `new_test_struct()` is a `TestStruct`. |
| Records.TestMain | src/lib.rs:46-62 | `test_main`: `TestStruct::unpack(pack_value(s))` is `Ok(s)` for the test value. |
| Records.TestPackSize | src/lib.rs:22-27 | The `test_pack` value packs and has size 1 + 4 + 4 = 9. |
| Records.TestPackEncoding | src/lib.rs:64-75 | Its 9 bytes are 05, then 08 AB 00 FF (the `LEu32` least significant byte first), then 01 02 FF 00 (the splat bytes, with no prefix). |
| Records.TestUnpackable | src/lib.rs:15-20 | Every field of `TestUnpack` has an `unpack`. The `DrainVec<u16>` reads 2 bytes per item. |
| Records.DrainField | src/lib.rs:15-20 | The last field, a `DrainVec<u16>`, takes all remaining bytes when they are a whole number of `u16`s. |
| Records.TailFields | src/lib.rs:15-20 | The `u32` is the BE value of the next 4 bytes. The drain reads the rest. |
| Records.HeadField | src/lib.rs:15-20 | The `u8` is the first byte. The remaining fields come from the bytes after it. |
| Records.TestUnpackFields | src/lib.rs:15-20 | Whenever the `u8` and `u32` leave an even number of bytes, `TestUnpack::unpack` returns `Ok` with the value read field by field (`TestUnpackOf`). |
| Records.TestPackRead | src/lib.rs:64-82 | The 9 bytes read as `TestUnpack` give u8 5, u32 0x08AB00FF, and the drain [0x0102, 0xFF00]. |
| Records.TestPack | src/lib.rs:64-82 | `test_pack`: `pack_value` gives the 9 bytes, and `TestUnpack::unpack` of them is `Ok` with that value; neither panics. |
| Records.DrainOfTwentyOne | src/lib.rs:84-94 | From 21 bytes, `TestUnpack` reads 3 fields, and its drain holds 8 `u16`s. |
| Records.TestUnpack | src/lib.rs:84-94 | `test_unpack`: the 21 bytes of the test value unpack as a `TestUnpack` without panic, the drain absorbing the last 16 bytes as eight `u16`s. |
| Records.ByteEncoding | src/pack.rs:14-19 | A `u8` packs as itself. |
| Records.LEu32Bytes | src/pack.rs:65-82 | `LEu32(0xFF00AB08)` is written as 08 AB 00 FF. |
| Records.DrainTwo | src/unpack.rs:105-118 | Four bytes drain as two `u16`s, each the BE value of its pair. |

## Left out

- The proc-macro crate is not part of this model. Only the code it emits is modelled: the sum of field sizes, and the field-by-field `pack`/`unpack` that re-slices the buffer. Records are the `Record`/`RecordTy` case of `Size`, `Pack` and `Unpack`.
- Out-of-bounds panics are preconditions, not error results. Callers must supply a buffer that holds the bytes `pack` writes (`byte_size` bytes for a uniform value), and an input that `Fits` the type for `unpack`.
- `DrainVec` is modelled only where it terminates and does not panic: its element type has one fixed, non-zero size, and the remaining input is a whole number of elements. A zero-size element type would loop forever on any non-empty input; on the empty input it returns `Ok` with no items, a case the model also leaves out. Only a drain in last position is used.
- `i32` and `SplatVec` have no `unpack`, and `DrainVec` has no `pack`, as in the source.
- `usize` overflow in size computations is not modelled; sizes are `nat`.
- Slices re-sliced with `&mut buf[k..]` are an array and an offset. Aliasing of slices is not modelled.
- The hex masks `(b & 0xf0) >> 4` and `b & 0x0f` are modelled as `b / 16` and `b % 16`; `Hex.NibbleMasks` proves them equal on `bv8`.
- The `IntoHexString` impl for `[u8]` only forwards to `encode_as_hex_string` and is not modelled separately.
- `dbg!` printing in the tests (values, buffers and their hex text) is not modelled. `Debug`, `PartialEq` and the other derives are structural equality of datatypes.
- Records.TestUnpack: the 21 bytes read back are stated through `TestUnpackOf` and the count of drained items, not as literal values.
- Packing.Pack, Packing.PackComposite and Packing.PackValue: these require every member of the value to be `Uniform`; only the top-level `SplatVec` may hold elements of different sizes. Deeper non-uniform nesting is not modelled; Packing.PackNext says what goes wrong there. For a top-level `SplatVec` whose elements differ in size, `byte_size` no longer matches the encoding (see Findings). `pack` panics exactly when the sum of the element sizes (`IntendedSize(v)`) exceeds `len * byte_size(first)` (`Size(v)`); the precondition `IntendedSize(v) <= Size(v)` excludes that case. Otherwise `pack_value` returns `Ok` with the encoding followed by `Size(v) - IntendedSize(v)` zero bytes, none when the two are equal, and that case is modelled.
- Packing.PackNext, Packing.PackSeq: every member must be `Uniform`. The source re-slices by each member's `byte_size`. For a member holding a non-uniform `SplatVec`, that differs from the bytes the member writes: the next member then overwrites part of it, or a gap of untouched bytes is left. That layout is not modelled.

## Findings

| source | as written | input that shows it | evidently intended | confidence | as-written member | corrected member |
|---|---|---|---|---|---|---|
| src/base.rs:146-155 | `SplatVec::byte_size` is `len * byte_size(first element)` | `SplatVec(vec![SplatVec(vec![1u8]), SplatVec(vec![1u8, 2])])`: `byte_size` is 2 but the elements need 3 bytes, so `pack_value` allocates 2 bytes and `pack` indexes byte 2 and panics | the sum of the element sizes, `Base.IntendedSize`, which `Packing.Encode` is proved to produce and which agrees with `byte_size` on uniform values | not executed | Packing.NestedSplatOverrun | Base.UniformSizeIsIntended |
| src/base.rs:146-155 | `SplatVec::byte_size` is `len * byte_size(first element)` | `SplatVec(vec![SplatVec(vec![1u8, 2]), SplatVec(vec![3u8])])`: `byte_size` is 4 but the elements need 3 bytes, so `pack_value` returns `Ok([1, 2, 3, 0])` with a trailing zero byte | the sum of the element sizes, `Base.IntendedSize`, so that `pack_value` returns exactly the 3 bytes of the encoding | not executed | Packing.NestedSplatPadding | Base.UniformSizeIsIntended |
