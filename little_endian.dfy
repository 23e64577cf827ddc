/**
 * Unsigned little-endian encoding of numbers as bytes: the memory layout of
 * the fixed-width integers on the little-endian targets a PE image is read
 * on. The Pod byte view of an integer is this encoding.
 */
module LittleEndian {

  /** A byte of the image buffer. */
  type u8 = x: int | 0 <= x < 256

  /** 256 to the power k: the number of distinct k-byte patterns. */
  function Pow256(k: nat): (r: nat)
    ensures r >= 1
  {
    if k == 0 then 1 else 256 * Pow256(k - 1)
  }

  /** The number whose little-endian bytes are `b` (least significant first). */
  function LeToNat(b: seq<u8>): (r: nat)
    ensures r < Pow256(|b|)
  {
    if b == [] then 0 else b[0] + 256 * LeToNat(b[1..])
  }

  /** The k little-endian bytes of n, dropping whatever does not fit in k bytes. */
  function NatToLe(n: nat, k: nat): (r: seq<u8>)
    ensures |r| == k
  {
    if k == 0 then [] else [n % 256] + NatToLe(n / 256, k - 1)
  }

  /** Encoding a number that fits and decoding it gives the number back. */
  lemma {:induction false} DecodeEncode(n: nat, k: nat)
    requires n < Pow256(k)
    ensures LeToNat(NatToLe(n, k)) == n
  {
    if k > 0 {
      var b := NatToLe(n, k);
      DecodeEncode(n / 256, k - 1);
      assert b[1..] == NatToLe(n / 256, k - 1);
    }
  }

  /** Decoding any bytes and encoding the number in as many bytes gives the bytes back. */
  lemma {:induction false} EncodeDecode(b: seq<u8>)
    ensures NatToLe(LeToNat(b), |b|) == b
  {
    if b != [] {
      JoinByte(b[0], LeToNat(b[1..]));
      EncodeDecode(b[1..]);
    }
  }

  /** A low byte and a rest are recovered from their combination. */
  lemma JoinByte(lo: nat, hi: nat)
    requires lo < 256
    ensures (lo + 256 * hi) % 256 == lo && (lo + 256 * hi) / 256 == hi
  {
  }

  /** Zero bytes decode to zero. */
  lemma {:induction false} ZerosDecode(b: seq<u8>)
    requires forall k :: 0 <= k < |b| ==> b[k] == 0
    ensures LeToNat(b) == 0
  {
    if b != [] {
      ZerosDecode(b[1..]);
    }
  }

  /** Bytes that are zero past the first decode to the first byte. */
  lemma LowByteDecode(b: seq<u8>)
    requires |b| > 0 && forall k :: 1 <= k < |b| ==> b[k] == 0
    ensures LeToNat(b) == b[0]
  {
    ZerosDecode(b[1..]);
  }
}
