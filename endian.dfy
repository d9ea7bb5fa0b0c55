/** Byte-order conversions of unsigned integers: the `to_be_bytes`, `to_le_bytes`,
    `from_be_bytes` and `from_le_bytes` conversions the codec relies on. */
module Endian {

  /** An octet. */
  newtype Byte = x: int | 0 <= x < 256

  /** 256 to the power `k`: one more than the largest unsigned integer of `k` bytes. */
  function Pow256(k: nat): (r: nat)
    ensures r > 0
  {
    if k == 0 then 1 else 256 * Pow256(k - 1)
  }

  /** The `k` big-endian bytes of `n`, most significant first. */
  function BE(n: nat, k: nat): (r: seq<Byte>)
    ensures |r| == k
  {
    if k == 0 then [] else BE(n / 256, k - 1) + [(n % 256) as Byte]
  }

  /** The `k` little-endian bytes of `n`, least significant first. */
  function LE(n: nat, k: nat): (r: seq<Byte>)
    ensures |r| == k
  {
    if k == 0 then [] else [(n % 256) as Byte] + LE(n / 256, k - 1)
  }

  /** The unsigned integer whose big-endian bytes are `bs`. */
  function FromBE(bs: seq<Byte>): (n: nat)
    ensures n < Pow256(|bs|)
  {
    if bs == [] then 0 else FromBE(bs[..|bs| - 1]) * 256 + bs[|bs| - 1] as nat
  }

  /** The unsigned integer whose little-endian bytes are `bs`. */
  function FromLE(bs: seq<Byte>): (n: nat)
    ensures n < Pow256(|bs|)
  {
    if bs == [] then 0 else bs[0] as nat + 256 * FromLE(bs[1..])
  }

  function Reverse<T>(s: seq<T>): (r: seq<T>)
    ensures |r| == |s|
  {
    if s == [] then [] else Reverse(s[1..]) + [s[0]]
  }

  /** Reading back the big-endian bytes of an integer that fits in `k` bytes gives the integer. */
  lemma {:induction false} FromBEOfBE(n: nat, k: nat)
    requires n < Pow256(k)
    ensures FromBE(BE(n, k)) == n
  {
    if k > 0 {
      var bs := BE(n, k);
      assert bs[..k - 1] == BE(n / 256, k - 1);
      FromBEOfBE(n / 256, k - 1);
    }
  }

  /** Writing back the value of `k` big-endian bytes gives the bytes: the other direction. */
  lemma {:induction false} BEOfFromBE(bs: seq<Byte>)
    ensures BE(FromBE(bs), |bs|) == bs
  {
    if bs != [] {
      var n := FromBE(bs);
      var p := bs[..|bs| - 1];
      assert n / 256 == FromBE(p) && n % 256 == bs[|bs| - 1] as nat;
      BEOfFromBE(p);
    }
  }

  /** Reading back the little-endian bytes of an integer that fits in `k` bytes gives the integer. */
  lemma {:induction false} FromLEOfLE(n: nat, k: nat)
    requires n < Pow256(k)
    ensures FromLE(LE(n, k)) == n
  {
    if k > 0 {
      var bs := LE(n, k);
      assert bs[1..] == LE(n / 256, k - 1);
      FromLEOfLE(n / 256, k - 1);
    }
  }

  /** Writing back the value of `k` little-endian bytes gives the bytes. */
  lemma {:induction false} LEOfFromLE(bs: seq<Byte>)
    ensures LE(FromLE(bs), |bs|) == bs
  {
    if bs != [] {
      var n := FromLE(bs);
      assert n / 256 == FromLE(bs[1..]) && n % 256 == bs[0] as nat;
      LEOfFromLE(bs[1..]);
    }
  }

  /** The little-endian bytes of an integer are its big-endian bytes in reverse order. */
  lemma {:induction false} LEIsReversedBE(n: nat, k: nat)
    ensures LE(n, k) == Reverse(BE(n, k))
  {
    if k > 0 {
      LEIsReversedBE(n / 256, k - 1);
      ReverseAppend(BE(n / 256, k - 1), [(n % 256) as Byte]);
    }
  }

  lemma {:induction false} ReverseAppend<T>(a: seq<T>, b: seq<T>)
    ensures Reverse(a + b) == Reverse(b) + Reverse(a)
  {
    if a == [] {
      assert a + b == b;
    } else {
      assert (a + b)[1..] == a[1..] + b;
      ReverseAppend(a[1..], b);
    }
  }
}
