/**
 * The few operations of a PE image that the RTTI scanner calls, over an
 * abstract image: the file's bytes, addressed here directly by RVA, the
 * preferred image base, SizeOfImage, and the partial translation from file
 * offsets to RVAs. The library's own section-table code is not modelled;
 * each operation states the bounds and translation behaviour the scanner
 * relies on and fails with an error otherwise.
 */
module PeImage {
  import LittleEndian
  import Pod
  import opened PeResult
  type u8 = LittleEndian.u8

  const U32_LIMIT: nat := 0x1_0000_0000
  const U64_LIMIT: nat := 0x1_0000_0000_0000_0000

  /** A relative virtual address (u32). */
  type Rva = x: nat | x < U32_LIMIT
  /** A virtual address (u64). */
  type Va = x: nat | x < U64_LIMIT

  datatype Image = Image(
    bytes: seq<u8>,              // the image buffer
    imageBase: Va,               // OptionalHeader.ImageBase
    sizeOfImage: Rva,            // OptionalHeader.SizeOfImage
    offsetToRva: map<nat, Rva>)  // the file offsets that lie in a mapped part of the file

  /** `file_offset_to_rva`: the RVA a file offset is mapped at, Unmapped when it is not. */
  function FileOffsetToRva(img: Image, offset: nat): (r: Result<Rva>)
    ensures r.Ok? <==> offset in img.offsetToRva
    ensures r.Ok? ==> r.value == img.offsetToRva[offset]
    ensures r.Err? ==> r.error == Unmapped
  {
    if offset in img.offsetToRva then Ok(img.offsetToRva[offset]) else Err(Unmapped)
  }

  /** The virtual addresses that lie in the image: from the image base up to SizeOfImage past it. */
  predicate InImage(img: Image, va: Va) {
    img.imageBase <= va <= img.imageBase + img.sizeOfImage
  }

  /** `va_to_rva`: an address in the image translates to its distance from the image base. */
  function VaToRva(img: Image, va: Va): (r: Result<Rva>)
    ensures r.Ok? <==> InImage(img, va)
    ensures r.Ok? ==> img.imageBase + r.value == va
    ensures r.Err? ==> r.error == Bounds
  {
    if va < img.imageBase || va - img.imageBase > img.sizeOfImage then Err(Bounds)
    else Ok(va - img.imageBase)
  }

  /** `derva`: the `size` bytes at `rva`, when they all lie in the image. */
  function Derva(img: Image, rva: nat, size: nat): (r: Result<seq<u8>>)
    ensures r.Ok? <==> rva + size <= |img.bytes|
    ensures r.Ok? ==> |r.value| == size && forall k :: 0 <= k < size ==> r.value[k] == img.bytes[rva + k]
    ensures r.Err? ==> r.error == Bounds
  {
    if rva + size <= |img.bytes| then Ok(img.bytes[rva..rva + size]) else Err(Bounds)
  }

  /** `deref`: follows a pointer: null is refused, any other address is translated and read. */
  function Deref(img: Image, va: Va, size: nat): (r: Result<seq<u8>>)
    ensures va == 0 ==> r == Err(Null)
    ensures r.Ok? <==>
      va != 0 && InImage(img, va) && va - img.imageBase + size <= |img.bytes|
    ensures r.Ok? ==> r.value == img.bytes[va - img.imageBase..va - img.imageBase + size]
    ensures r.Err? && va != 0 ==> r.error == Bounds
  {
    if va == 0 then Err(Null)
    else
      var rva :- VaToRva(img, va);
      Derva(img, rva, size)
  }

  /** The value of a u64 in little-endian bytes, through its Pod decoding. */
  function U64Of(b: seq<u8>): (x: Va)
    requires |b| == 8
    ensures x == LittleEndian.LeToNat(b)
  {
    assert Pod.Size(Pod.Prim(Pod.U64)) == 8;
    Pod.FromBytes(Pod.Prim(Pod.U64), b).n
  }

  /** `derva::<u64>`: the u64 stored at an RVA. */
  function DervaU64(img: Image, rva: nat): (r: Result<Va>)
    ensures r.Ok? <==> rva + 8 <= |img.bytes|
    ensures r.Ok? ==> r.value == LittleEndian.LeToNat(img.bytes[rva..rva + 8])
    ensures r.Err? ==> r.error == Bounds
  {
    var b :- Derva(img, rva, 8);
    Ok(U64Of(b))
  }

  /** `deref::<Ptr<T>>`: the pointer (a u64 address) stored at a virtual address. */
  function DerefPtr(img: Image, va: Va): (r: Result<Va>)
    ensures r.Ok? <==> Deref(img, va, 8).Ok?
    ensures r.Ok? ==> r.value == LittleEndian.LeToNat(Deref(img, va, 8).value)
    ensures r.Err? ==> r.error == Deref(img, va, 8).error
  {
    var b :- Deref(img, va, 8);
    Ok(U64Of(b))
  }

  datatype Option<T> = None | Some(value: T)

  /** The index of the first zero byte of `s`, if there is one. */
  function FirstNul(s: seq<u8>): (r: Option<nat>)
    ensures r.Some? ==> r.value < |s| && s[r.value] == 0 && forall k :: 0 <= k < r.value ==> s[k] != 0
    ensures r.None? ==> forall k :: 0 <= k < |s| ==> s[k] != 0
  {
    if s == [] then None
    else if s[0] == 0 then Some(0)
    else match FirstNul(s[1..])
      case None => None
      case Some(k) => Some(k + 1)
  }

  /** `s` is stored at `rva` followed by a zero byte, and holds no zero byte itself. */
  predicate CStrAt(img: Image, rva: nat, s: seq<u8>) {
    rva + |s| < |img.bytes| && img.bytes[rva..rva + |s|] == s && img.bytes[rva + |s|] == 0
    && forall k :: 0 <= k < |s| ==> s[k] != 0
  }

  /**
   * `derva_c_str`: the bytes from an RVA up to, not including, the first
   * zero byte. Fails with Bounds when the RVA is outside the image or no zero
   * byte follows it.
   */
  function DervaCStr(img: Image, rva: nat): (r: Result<seq<u8>>)
    ensures r.Ok? <==> exists k :: rva <= k < |img.bytes| && img.bytes[k] == 0
    ensures r.Ok? ==> CStrAt(img, rva, r.value)
    ensures r.Err? ==> r.error == Bounds
  {
    if rva >= |img.bytes| then Err(Bounds)
    else
      var tail := img.bytes[rva..];
      match FirstNul(tail)
      case None =>
        assert forall k :: rva <= k < |img.bytes| ==> img.bytes[k] == tail[k - rva];
        Err(Bounds)
      case Some(n) =>
        assert img.bytes[rva + n] == tail[n];
        Ok(img.bytes[rva..rva + n])
  }
}
