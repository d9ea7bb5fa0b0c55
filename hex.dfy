/** Rendering bytes as lower-case hexadecimal text: `hexchar_repr`, `u8_to_hex_string` and
    `encode_as_hex_string`. */
module Hex {
  import opened Results
  import opened Endian

  datatype HexStringError = InvalidHexChar(b: Byte)

  /** `hexchar_repr`: the hex digit of a nibble, `'0'`..`'9'` then `'a'`..`'f'`; a byte above 15
      is reported back as an invalid hex char. */
  function HexChar(b: Byte): (r: Result<char, HexStringError>)
    ensures r.Ok? <==> b < 16
    ensures b < 10 ==> r == Ok(('0' as int + b as int) as char)
    ensures 10 <= b < 16 ==> r == Ok(('a' as int + b as int - 10) as char)
    ensures 16 <= b ==> r == Err(InvalidHexChar(b))
  {
    match b
    case 0 => Ok('0')
    case 1 => Ok('1')
    case 2 => Ok('2')
    case 3 => Ok('3')
    case 4 => Ok('4')
    case 5 => Ok('5')
    case 6 => Ok('6')
    case 7 => Ok('7')
    case 8 => Ok('8')
    case 9 => Ok('9')
    case 10 => Ok('a')
    case 11 => Ok('b')
    case 12 => Ok('c')
    case 13 => Ok('d')
    case 14 => Ok('e')
    case 15 => Ok('f')
    case _ => Err(InvalidHexChar(b))
  }

  datatype Option<T> = None | Some(value: T)

  /** The value of a lower-case hex digit; the inverse of `HexChar`. */
  function DigitValue(c: char): (r: Option<Byte>)
    ensures r.Some? ==> r.value < 16
  {
    if '0' <= c <= '9' then Some((c as int - '0' as int) as Byte)
    else if 'a' <= c <= 'f' then Some((c as int - 'a' as int + 10) as Byte)
    else None
  }

  /** Every nibble renders as a digit that reads back as the nibble. */
  lemma DigitValueOfHexChar(b: Byte)
    requires b < 16
    ensures DigitValue(HexChar(b).value) == Some(b)
  {
  }

  /** On a byte, the masks of `u8_to_hex_string` compute the two nibbles: `(b & 0xf0) >> 4` is
      `b / 16` and `b & 0x0f` is `b % 16`. */
  lemma NibbleMasks(x: bv8)
    ensures (x & 0xf0) >> 4 == x / 16 && x & 0x0f == x % 16
  {
  }

  /** `u8_to_hex_string`: the two hex digits of a byte, high nibble first. Both nibbles are
      below 16, so neither `expect` fires. */
  function ByteToHex(b: Byte): (r: seq<char>)
    ensures |r| == 2
    ensures HexChar(b / 16) == Ok(r[0]) && HexChar(b % 16) == Ok(r[1])
  {
    [HexChar(b / 16).value, HexChar(b % 16).value]
  }

  /** The two digits of a byte read back as the byte. */
  lemma ByteOfHex(b: Byte)
    ensures var r := ByteToHex(b);
            DigitValue(r[0]).Some? && DigitValue(r[1]).Some?
            && DigitValue(r[0]).value as int * 16 + DigitValue(r[1]).value as int == b as int
  {
    DigitValueOfHexChar(b / 16);
    DigitValueOfHexChar(b % 16);
  }

  /** The text of `encode_as_hex_string`: the digits of every byte, in order. */
  function HexString(bytes: seq<Byte>): (s: string)
    ensures |s| == 2 * |bytes|
  {
    if bytes == [] then "" else HexString(bytes[..|bytes| - 1]) + ByteToHex(bytes[|bytes| - 1])
  }

  /** `encode_as_hex_string`: folds the two digits of each byte into a growing string. */
  method EncodeHex(bytes: seq<Byte>) returns (s: string)
    ensures s == HexString(bytes)
  {
    s := "";
    for i := 0 to |bytes|
      invariant s == HexString(bytes[..i])
    {
      var digits := ByteToHex(bytes[i]);
      s := s + [digits[0]];
      s := s + [digits[1]];
      assert bytes[..i + 1][..i] == bytes[..i];
    }
    assert bytes[..|bytes|] == bytes;
  }

  /** Characters `2 * i` and `2 * i + 1` of the text are the digits of byte `i`. */
  lemma {:induction false} HexStringAt(bytes: seq<Byte>, i: nat)
    requires i < |bytes|
    ensures HexString(bytes)[2 * i .. 2 * i + 2] == ByteToHex(bytes[i])
  {
    var n := |bytes|;
    if i < n - 1 {
      HexStringAt(bytes[..n - 1], i);
      assert HexString(bytes)[2 * i .. 2 * i + 2] == HexString(bytes[..n - 1])[2 * i .. 2 * i + 2];
    }
  }

  /** Reads hex text back into bytes, two digits per byte. */
  function DecodeHex(s: string): (r: Option<seq<Byte>>)
    decreases |s|
  {
    if s == [] then Some([])
    else if |s| == 1 then None
    else
      var hi, lo := DigitValue(s[|s| - 2]), DigitValue(s[|s| - 1]);
      var front := DecodeHex(s[..|s| - 2]);
      if hi.Some? && lo.Some? && front.Some? then
        Some(front.value + [(hi.value as int * 16 + lo.value as int) as Byte])
      else None
  }

  /** Two more digits read back as one more byte. */
  lemma DecodeHexAppend(t: string, d: seq<char>)
    requires |d| == 2 && DigitValue(d[0]).Some? && DigitValue(d[1]).Some? && DecodeHex(t).Some?
    ensures DecodeHex(t + d)
            == Some(DecodeHex(t).value + [(DigitValue(d[0]).value as int * 16 + DigitValue(d[1]).value as int) as Byte])
  {
    var s := t + d;
    assert s[..|s| - 2] == t;
  }

  lemma SnocLast<T>(s: seq<T>)
    requires s != []
    ensures s[..|s| - 1] + [s[|s| - 1]] == s
  {
  }

  /** The hex text of a byte string reads back as that byte string, so `encode_as_hex_string`
      loses nothing: different byte strings give different text. */
  lemma {:induction false} DecodeHexString(bytes: seq<Byte>)
    ensures DecodeHex(HexString(bytes)) == Some(bytes)
  {
    if bytes != [] {
      var front, last := bytes[..|bytes| - 1], bytes[|bytes| - 1];
      assert HexString(bytes) == HexString(front) + ByteToHex(last);
      DecodeHexString(front);
      ByteOfHex(last);
      DecodeHexAppend(HexString(front), ByteToHex(last));
      SnocLast(bytes);
    }
  }
}
