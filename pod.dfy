/**
 * Podness: the types a PE reader may materialise from untrusted bytes.
 *
 * A Pod type has a fixed byte size, every byte pattern of that size is one of
 * its values, and its byte view (`as_bytes`) is exactly those bytes. Types
 * are described by `PodType`; values by `Value`. The qualifying types are the
 * fixed-width integers, the two float widths (opaque bit patterns here),
 * slices of a qualifying element type and arrays of a qualifying element type
 * for the lengths listed by the `impl_pod_array!` invocations.
 */
module Pod {
  import LittleEndian
  type u8 = LittleEndian.u8

  /** The primitive types with a Pod implementation. */
  datatype Prim = I8 | I16 | I32 | I64 | U8 | U16 | U32 | U64 | F32 | F64 {

    predicate IsFloat() {
      this == F32 || this == F64
    }

    predicate IsSigned() {
      this == I8 || this == I16 || this == I32 || this == I64
    }

    /** size_of for the primitive, in bytes. */
    function Width(): nat {
      match this
      case I8 | U8 => 1
      case I16 | U16 => 2
      case I32 | U32 | F32 => 4
      case I64 | U64 | F64 => 8
    }
  }

  datatype PodType =
    | Prim(prim: Prim)
    | Array(elem: PodType, len: nat)  // [T; len]
    | Slice(elem: PodType, len: nat)  // a [T] value holding len elements

  /** A value: an integer, the raw bits of a float, or the elements of an array or slice. */
  datatype Value = Int(n: int) | Float(bits: seq<u8>) | Elems(items: seq<Value>)

  /** size_of_val: the number of bytes a value of type t occupies. */
  function Size(t: PodType): nat {
    match t
    case Prim(p) => p.Width()
    case Array(e, n) => Times(n, Size(e))
    case Slice(e, m) => Times(m, Size(e))
  }

  /** k elements of s bytes each take k * s bytes, counted one element at a time. */
  function Times(k: nat, s: nat): nat {
    if k == 0 then 0 else s + Times(k - 1, s)
  }

  /** Counting element by element gives the product. */
  lemma {:induction false} TimesIsProduct(k: nat, s: nat)
    ensures Times(k, s) == k * s
  {
    if k > 0 {
      TimesIsProduct(k - 1, s);
      assert k * s == (k - 1) * s + s;
    }
  }

  /** Only sized types can be array or slice elements; a slice is unsized. */
  predicate Sized(t: PodType) {
    !t.Slice?
  }

  /**
   * One `impl_pod_array!` invocation: the macro peels one length token at a
   * time and implements Pod for `[T; n]` for each. It has no rule for an
   * empty token list, so it must be given at least one length.
   */
  function ImplPodArray(lengths: seq<nat>): (r: set<nat>)
    requires |lengths| >= 1
    ensures forall n :: n in r <==> n in lengths
  {
    if |lengths| == 1 then {lengths[0]} else {lengths[0]} + ImplPodArray(lengths[1..])
  }

  /** The array lengths of the three macro invocations: 0 to 15, 16 to 31, and the larger ones. */
  function ArrayLengths(): set<nat> {
    ImplPodArray(Count(0, 16)) + ImplPodArray(Count(16, 32)) + ImplPodArray(LargeTokens)
  }

  /** The token list of the last invocation, in the order written. */
  const LargeTokens: seq<nat> := [32, 48, 64, 80, 100, 128, 160, 192, 256, 512, 768, 1024, 2048, 4096]

  /** The lengths of the last invocation, as a set. */
  const LargeArrayLengths: set<nat> := {32, 48, 64, 80, 100, 128, 160, 192, 256, 512, 768, 1024, 2048, 4096}

  /** The token list lo, lo + 1, ..., hi - 1. */
  function Count(lo: nat, hi: nat): seq<nat>
    decreases hi - lo
  {
    if lo >= hi then [] else [lo] + Count(lo + 1, hi)
  }

  /** A counting token list holds exactly the numbers from lo below hi. */
  lemma {:induction false} CountMembers(lo: nat, hi: nat, n: nat)
    ensures n in Count(lo, hi) <==> lo <= n < hi
    decreases hi - lo
  {
    if lo < hi {
      CountMembers(lo + 1, hi, n);
    }
  }

  /** The supported array lengths are exactly 0 to 31 and the fourteen larger ones. */
  lemma ArrayLengthsExact(n: nat)
    ensures n in ArrayLengths() <==> n < 32 || n in LargeArrayLengths
  {
    CountMembers(0, 16, n);
    CountMembers(16, 32, n);
  }

  /** The types with a Pod implementation: closure of the listed impls. */
  predicate IsPod(t: PodType) {
    match t
    case Prim(_) => true
    case Array(e, n) => IsPod(e) && Sized(e) && (n < 32 || n in LargeArrayLengths)
    case Slice(e, _) => IsPod(e) && Sized(e)
  }

  /** `[T; n]` is Pod exactly when T is a sized Pod type and one of the macro invocations lists n. */
  lemma ArrayIsPod(e: PodType, n: nat)
    ensures IsPod(Array(e, n)) <==> IsPod(e) && Sized(e) && n in ArrayLengths()
  {
    ArrayLengthsExact(n);
  }

  /** The number of distinct bit patterns of the primitive: 2 to the power of its bit width. */
  function Modulus(p: Prim): (m: nat)
    ensures m == LittleEndian.Pow256(p.Width())
  {
    match p
    case I8 | U8 => 0x100
    case I16 | U16 => 0x1_0000
    case I32 | U32 | F32 =>
      assert LittleEndian.Pow256(4) == 0x1_0000_0000;
      0x1_0000_0000
    case I64 | U64 | F64 =>
      assert LittleEndian.Pow256(8) == 0x1_0000_0000_0000_0000;
      0x1_0000_0000_0000_0000
  }

  /** Half the bit patterns: where the negative numbers of a signed type begin. */
  function HalfModulus(p: Prim): (h: nat)
    ensures 2 * h == Modulus(p)
  {
    match p
    case I8 | U8 => 0x80
    case I16 | U16 => 0x8000
    case I32 | U32 | F32 => 0x8000_0000
    case I64 | U64 | F64 => 0x8000_0000_0000_0000
  }

  /** The range of a primitive integer type (two's complement when signed). */
  predicate InRange(p: Prim, n: int)
    requires !p.IsFloat()
  {
    if p.IsSigned() then -(HalfModulus(p) as int) <= n < HalfModulus(p)
    else 0 <= n < Modulus(p)
  }

  /** v is a value of type t. */
  predicate HasType(v: Value, t: PodType) {
    match t
    case Prim(p) =>
      if p.IsFloat() then v.Float? && |v.bits| == p.Width() else v.Int? && InRange(p, v.n)
    case Array(e, n) =>
      v.Elems? && |v.items| == n && forall i :: 0 <= i < n ==> HasType(v.items[i], e)
    case Slice(e, m) =>
      v.Elems? && |v.items| == m && forall i :: 0 <= i < m ==> HasType(v.items[i], e)
  }

  /** The bit pattern of an integer: two's complement for negative numbers. */
  function ToUnsigned(p: Prim, n: int): (u: nat)
    requires !p.IsFloat() && InRange(p, n)
    ensures u < Modulus(p)
  {
    if n < 0 then n + Modulus(p) else n
  }

  /** The integer a bit pattern denotes: the top half is negative for signed types. */
  function FromUnsigned(p: Prim, u: nat): (n: int)
    requires !p.IsFloat() && u < Modulus(p)
    ensures InRange(p, n)
  {
    if p.IsSigned() && u >= HalfModulus(p) then u - Modulus(p) else u
  }

  /** `as_bytes`: the bytes of a value, in memory order. */
  function AsBytes(t: PodType, v: Value): (r: seq<u8>)
    requires IsPod(t) && HasType(v, t)
    ensures |r| == Size(t)
    decreases t, 0
  {
    match t
    case Prim(p) =>
      if p.IsFloat() then v.bits else LittleEndian.NatToLe(ToUnsigned(p, v.n), p.Width())
    case Array(e, _) => ElemsAsBytes(e, v.items)
    case Slice(e, _) => ElemsAsBytes(e, v.items)
  }

  /** The bytes of a run of elements: their byte views one after another. */
  function ElemsAsBytes(e: PodType, items: seq<Value>): (r: seq<u8>)
    requires IsPod(e) && forall i :: 0 <= i < |items| ==> HasType(items[i], e)
    ensures |r| == Times(|items|, Size(e))
    decreases e, |items|
  {
    if items == [] then [] else AsBytes(e, items[0]) + ElemsAsBytes(e, items[1..])
  }

  /**
   * The safety promise of the trait: any byte sequence of the type's size is
   * a value of the type. Decoding is total on such sequences.
   */
  function FromBytes(t: PodType, b: seq<u8>): (v: Value)
    requires IsPod(t) && |b| == Size(t)
    ensures HasType(v, t)
    decreases t, 0
  {
    match t
    case Prim(p) =>
      if p.IsFloat() then Float(b) else Int(FromUnsigned(p, LittleEndian.LeToNat(b)))
    case Array(e, n) => Elems(ElemsFromBytes(e, n, b))
    case Slice(e, m) => Elems(ElemsFromBytes(e, m, b))
  }

  /** Cuts n element-sized chunks off b and decodes each. */
  function ElemsFromBytes(e: PodType, n: nat, b: seq<u8>): (items: seq<Value>)
    requires IsPod(e) && |b| == Times(n, Size(e))
    ensures |items| == n && forall i :: 0 <= i < n ==> HasType(items[i], e)
    decreases e, n + 1
  {
    if n == 0 then []
    else
      var s := Size(e);
      [FromBytes(e, b[..s])] + ElemsFromBytes(e, n - 1, b[s..])
  }

  /** The primitive sizes of the impls for the integer and float types. */
  lemma PrimitiveSizes()
    ensures Size(Prim(I8)) == 1 && Size(Prim(U8)) == 1
    ensures Size(Prim(I16)) == 2 && Size(Prim(U16)) == 2
    ensures Size(Prim(I32)) == 4 && Size(Prim(U32)) == 4 && Size(Prim(F32)) == 4
    ensures Size(Prim(I64)) == 8 && Size(Prim(U64)) == 8 && Size(Prim(F64)) == 8
  {
  }

  /** An integer's bit pattern read back as the same type is the integer. */
  lemma SignedRoundTrip(p: Prim, n: int)
    requires !p.IsFloat() && InRange(p, n)
    ensures FromUnsigned(p, ToUnsigned(p, n)) == n
  {
  }

  /** A bit pattern read as an integer and written back is the bit pattern. */
  lemma UnsignedRoundTrip(p: Prim, u: nat)
    requires !p.IsFloat() && u < Modulus(p)
    ensures ToUnsigned(p, FromUnsigned(p, u)) == u
  {
  }

  /** Reinterpreting the byte view of a value gives back the value. */
  lemma {:induction false} FromAsBytes(t: PodType, v: Value)
    requires IsPod(t) && HasType(v, t)
    ensures FromBytes(t, AsBytes(t, v)) == v
    decreases t, 0
  {
    match t
    case Prim(p) =>
      if !p.IsFloat() {
        var u := ToUnsigned(p, v.n);
        LittleEndian.DecodeEncode(u, p.Width());
        SignedRoundTrip(p, v.n);
      }
    case Array(e, _) =>
      ElemsFromAsBytes(e, v.items);
    case Slice(e, _) =>
      ElemsFromAsBytes(e, v.items);
  }

  lemma {:induction false} ElemsFromAsBytes(e: PodType, items: seq<Value>)
    requires IsPod(e) && forall i :: 0 <= i < |items| ==> HasType(items[i], e)
    ensures ElemsFromBytes(e, |items|, ElemsAsBytes(e, items)) == items
    decreases e, |items|
  {
    if items != [] {
      var s := Size(e);
      var head, rest := AsBytes(e, items[0]), ElemsAsBytes(e, items[1..]);
      var b := ElemsAsBytes(e, items);
      assert b == head + rest;
      assert b[..s] == head && b[s..] == rest;
      FromAsBytes(e, items[0]);
      ElemsFromAsBytes(e, items[1..]);
      assert ElemsFromBytes(e, |items|, b) == [items[0]] + items[1..];
    }
  }

  /** The byte view of the value that any bytes decode to is those bytes. */
  lemma {:induction false} AsFromBytes(t: PodType, b: seq<u8>)
    requires IsPod(t) && |b| == Size(t)
    ensures AsBytes(t, FromBytes(t, b)) == b
  {
    match t
    case Prim(p) =>
      if !p.IsFloat() {
        UnsignedRoundTrip(p, LittleEndian.LeToNat(b));
        LittleEndian.EncodeDecode(b);
      }
    case Array(e, n) =>
      forall c: seq<u8> | |c| == Size(e) ensures AsBytes(e, FromBytes(e, c)) == c {
        AsFromBytes(e, c);
      }
      ElemsAsFromBytes(e, n, b);
    case Slice(e, m) =>
      forall c: seq<u8> | |c| == Size(e) ensures AsBytes(e, FromBytes(e, c)) == c {
        AsFromBytes(e, c);
      }
      ElemsAsFromBytes(e, m, b);
  }

  /** A run decodes and re-encodes to its bytes when each element does. */
  lemma {:induction false} ElemsAsFromBytes(e: PodType, n: nat, b: seq<u8>)
    requires IsPod(e) && |b| == Times(n, Size(e))
    requires forall c: seq<u8> :: |c| == Size(e) ==> AsBytes(e, FromBytes(e, c)) == c
    ensures ElemsAsBytes(e, ElemsFromBytes(e, n, b)) == b
  {
    if n > 0 {
      var s := Size(e);
      var items := ElemsFromBytes(e, n, b);
      ElemsFromBytesCons(e, n, b);
      ElemsAsBytesCons(e, items);
      ElemsAsFromBytes(e, n - 1, b[s..]);
      SplitAt(b, s);
    }
  }

  /** Bytes are their first s bytes followed by the rest. */
  lemma SplitAt(b: seq<u8>, s: nat)
    requires s <= |b|
    ensures b == b[..s] + b[s..]
  {
  }

  /** Decoding a run takes the first element from the first Size(e) bytes. */
  lemma ElemsFromBytesCons(e: PodType, n: nat, b: seq<u8>)
    requires IsPod(e) && |b| == Times(n, Size(e)) && n > 0
    ensures Size(e) <= |b|
    ensures ElemsFromBytes(e, n, b)[0] == FromBytes(e, b[..Size(e)])
    ensures ElemsFromBytes(e, n, b)[1..] == ElemsFromBytes(e, n - 1, b[Size(e)..])
  {
  }

  /** The bytes of a run start with the bytes of its first element. */
  lemma ElemsAsBytesCons(e: PodType, items: seq<Value>)
    requires IsPod(e) && forall i :: 0 <= i < |items| ==> HasType(items[i], e)
    requires items != []
    ensures ElemsAsBytes(e, items) == AsBytes(e, items[0]) + ElemsAsBytes(e, items[1..])
  {
  }

  /** Element i of a run occupies the i-th stretch of Size(e) bytes of the run's bytes. */
  lemma {:induction false} ElemsBytesAt(e: PodType, items: seq<Value>, i: nat)
    requires IsPod(e) && forall j :: 0 <= j < |items| ==> HasType(items[j], e)
    requires i < |items|
    ensures Times(i, Size(e)) + Size(e) <= |ElemsAsBytes(e, items)|
    ensures ElemsAsBytes(e, items)[Times(i, Size(e))..Times(i, Size(e)) + Size(e)] == AsBytes(e, items[i])
  {
    var s := Size(e);
    var head, rest := AsBytes(e, items[0]), ElemsAsBytes(e, items[1..]);
    assert ElemsAsBytes(e, items) == head + rest;
    if i > 0 {
      var prev := Times(i - 1, s);
      ElemsBytesAt(e, items[1..], i - 1);
      assert items[1..][i - 1] == items[i];
      ShiftedSlice(head, rest, prev, s);
    }
  }

  /** A range past the first part of a concatenation is a range of the second part. */
  lemma ShiftedSlice(head: seq<u8>, rest: seq<u8>, lo: nat, len: nat)
    requires lo + len <= |rest|
    ensures (head + rest)[|head| + lo..|head| + lo + len] == rest[lo..lo + len]
  {
  }

  /**
   * `[T; n]` is Pod when T is: its bytes are n * size_of(T) long and element
   * i's bytes are the i-th stretch of size_of(T) bytes.
   */
  lemma ArrayElementBytes(e: PodType, n: nat, v: Value, i: nat)
    requires IsPod(Array(e, n)) && HasType(v, Array(e, n)) && i < n
    ensures |AsBytes(Array(e, n), v)| == n * Size(e)
    ensures i * Size(e) + Size(e) <= n * Size(e)
    ensures AsBytes(Array(e, n), v)[i * Size(e)..i * Size(e) + Size(e)] == AsBytes(e, v.items[i])
  {
    TimesIsProduct(n, Size(e));
    TimesIsProduct(i, Size(e));
    ElemsBytesAt(e, v.items, i);
  }

  /** A `[T]` of m elements is Pod when T is, with m * size_of(T) bytes laid out element by element. */
  lemma SliceElementBytes(e: PodType, m: nat, v: Value, i: nat)
    requires IsPod(Slice(e, m)) && HasType(v, Slice(e, m)) && i < m
    ensures |AsBytes(Slice(e, m), v)| == m * Size(e)
    ensures i * Size(e) + Size(e) <= m * Size(e)
    ensures AsBytes(Slice(e, m), v)[i * Size(e)..i * Size(e) + Size(e)] == AsBytes(e, v.items[i])
  {
    TimesIsProduct(m, Size(e));
    TimesIsProduct(i, Size(e));
    ElemsBytesAt(e, v.items, i);
  }

  /**
   * A Pod value in memory: its storage is exactly Size(ty) bytes, and the
   * value is whatever those bytes decode to. `as_bytes_mut` hands out that
   * storage itself, so a write through the view changes the value.
   */
  class PodCell {
    const ty: PodType
    const mem: array<u8>

    ghost predicate Valid() {
      IsPod(ty) && mem.Length == Size(ty)
    }

    /** The value the cell holds. */
    function Get(): (v: Value)
      reads mem
      requires Valid()
      ensures HasType(v, ty)
    {
      FromBytes(ty, mem[..])
    }

    /** `as_bytes` of the held value is the cell's storage. */
    function Bytes(): (r: seq<u8>)
      reads mem
      requires Valid()
      ensures r == AsBytes(ty, Get())
    {
      AsFromBytes(ty, mem[..]);
      mem[..]
    }

    constructor (t: PodType, v: Value)
      requires IsPod(t) && HasType(v, t)
      ensures Valid() && ty == t && fresh(mem)
      ensures Get() == v
    {
      var b := AsBytes(t, v);
      ty := t;
      mem := new u8[|b|](i requires 0 <= i < |b| => b[i]);
      new;
      assert mem[..] == b;
      FromAsBytes(t, v);
    }

    /** `as_bytes_mut`: a mutable view of the same length over the same bytes. */
    method BytesMut() returns (view: array<u8>)
      requires Valid()
      ensures view == mem && view.Length == Size(ty)
    {
      view := mem;
    }

    /**
     * Writes byte k through the mutable view: byte k of `as_bytes` becomes x
     * and every other byte is unchanged.
     */
    method WriteByte(k: nat, x: u8)
      requires Valid() && k < Size(ty)
      modifies mem
      ensures Valid()
      ensures Bytes() == old(Bytes())[k := x]
      ensures Get() == FromBytes(ty, old(AsBytes(ty, Get()))[k := x])
    {
      var view := BytesMut();
      view[k] := x;
    }
  }
}
