/**
 * The two MSVC x64 RTTI records the scanner reads, decoded from their
 * little-endian bytes: the complete object locator (six u32 fields, the
 * fourth being the RVA of the type descriptor) and the fixed head of a type
 * descriptor (the vftable address and the `spare` pointer, both u64; the
 * decorated name follows it at offset 16).
 */
module Rtti {
  import LittleEndian
  import Pod
  import opened PeResult
  import opened PeImage
  type u8 = LittleEndian.u8

  const LOCATOR_SIZE: nat := 24
  const TYPE_DESCRIPTOR_SIZE: nat := 16

  datatype Locator = Locator(
    signature: Rva,
    offset: Rva,
    cdOffset: Rva,
    typeDescriptor: Rva,   // RVA of the TypeDescriptor
    classDescriptor: Rva,
    objectBase: Rva)

  datatype TypeDescriptor = TypeDescriptor(vftable: Va, spare: Va)

  /** The u32 stored at byte `at` of `b`, through its Pod decoding. */
  function U32At(b: seq<u8>, at: nat): (x: Rva)
    requires at + 4 <= |b|
    ensures x == LittleEndian.LeToNat(b[at..at + 4])
  {
    assert Pod.Size(Pod.Prim(Pod.U32)) == 4;
    Pod.FromBytes(Pod.Prim(Pod.U32), b[at..at + 4]).n
  }

  /** The locator whose 24 bytes are `b`. */
  function LocatorOf(b: seq<u8>): (col: Locator)
    requires |b| == LOCATOR_SIZE
    ensures col.typeDescriptor == LittleEndian.LeToNat(b[12..16])
  {
    Locator(U32At(b, 0), U32At(b, 4), U32At(b, 8), U32At(b, 12), U32At(b, 16), U32At(b, 20))
  }

  /** `deref` of a `Ptr<RTTICompleteObjectLocator>`: the locator at a virtual address. */
  function DerefLocator(img: Image, va: Va): (r: Result<Locator>)
    ensures r.Ok? <==> Deref(img, va, LOCATOR_SIZE).Ok?
    ensures r.Ok? ==> r.value == LocatorOf(Deref(img, va, LOCATOR_SIZE).value)
    ensures r.Err? ==> r.error == Deref(img, va, LOCATOR_SIZE).error
  {
    var b :- Deref(img, va, LOCATOR_SIZE);
    Ok(LocatorOf(b))
  }

  /** `derva::<TypeDescriptor>`: the descriptor head at an RVA. */
  function DervaTypeDescriptor(img: Image, rva: nat): (r: Result<TypeDescriptor>)
    ensures r.Ok? <==> rva + TYPE_DESCRIPTOR_SIZE <= |img.bytes|
    ensures r.Ok? ==>
      r.value.vftable == LittleEndian.LeToNat(img.bytes[rva..rva + 8])
      && r.value.spare == LittleEndian.LeToNat(img.bytes[rva + 8..rva + 16])
    ensures r.Err? ==> r.error == Bounds
  {
    var b :- Derva(img, rva, TYPE_DESCRIPTOR_SIZE);
    assert b[..8] == img.bytes[rva..rva + 8] && b[8..] == img.bytes[rva + 8..rva + 16];
    Ok(TypeDescriptor(U64Of(b[..8]), U64Of(b[8..])))
  }
}
