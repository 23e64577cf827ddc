/**
 * Well-formed UTF-8, as `CStr::to_str` checks it before handing out a
 * `&str`: the byte sequences of Table 3-7 of the Unicode Standard (chapter 3,
 * "Well-Formed UTF-8 Byte Sequences"), one scalar value after another.
 */
module Utf8 {
  import LittleEndian
  type u8 = LittleEndian.u8

  /** A continuation byte: 10xxxxxx. */
  predicate Cont(x: u8) {
    0x80 <= x <= 0xBF
  }

  /**
   * The length of the well-formed sequence that starts `b`, or 0 when `b`
   * does not start with one. The rows follow Table 3-7: the lead byte fixes
   * the length and the range of the second byte; later bytes are
   * continuation bytes.
   */
  function SeqWidth(b: seq<u8>): (w: nat)
    ensures w <= 4 && w <= |b|
    ensures w != 0 ==> forall k :: 1 <= k < w ==> Cont(b[k])
    ensures b != [] && b[0] < 0x80 ==> w == 1
  {
    if b == [] then 0
    else if b[0] <= 0x7F then 1
    else if 0xC2 <= b[0] <= 0xDF then
      if |b| >= 2 && Cont(b[1]) then 2 else 0
    else if b[0] == 0xE0 then
      if |b| >= 3 && 0xA0 <= b[1] <= 0xBF && Cont(b[2]) then 3 else 0
    else if (0xE1 <= b[0] <= 0xEC) || (0xEE <= b[0] <= 0xEF) then
      if |b| >= 3 && Cont(b[1]) && Cont(b[2]) then 3 else 0
    else if b[0] == 0xED then
      if |b| >= 3 && 0x80 <= b[1] <= 0x9F && Cont(b[2]) then 3 else 0
    else if b[0] == 0xF0 then
      if |b| >= 4 && 0x90 <= b[1] <= 0xBF && Cont(b[2]) && Cont(b[3]) then 4 else 0
    else if 0xF1 <= b[0] <= 0xF3 then
      if |b| >= 4 && Cont(b[1]) && Cont(b[2]) && Cont(b[3]) then 4 else 0
    else if b[0] == 0xF4 then
      if |b| >= 4 && 0x80 <= b[1] <= 0x8F && Cont(b[2]) && Cont(b[3]) then 4 else 0
    else 0
  }

  /** `b` is a sequence of well-formed UTF-8 byte sequences. */
  predicate ValidUtf8(b: seq<u8>)
    decreases |b|
  {
    b == [] || (SeqWidth(b) != 0 && ValidUtf8(b[SeqWidth(b)..]))
  }
}
