/**
 * One candidate of the apex RTTI scan: a file offset that holds a pointer to
 * a vtable whose RTTI names the class of a global object. `Global` is the
 * `?`-chain that reads it; the first step that fails ends the chain with its
 * own error.
 */
module ApexGlobals {
  import LittleEndian
  import opened PeResult
  import opened PeImage
  import opened Rtti
  import opened Utf8
  import ByteStrings
  type u8 = LittleEndian.u8

  /** A global object: the RVA it lives at and the (UTF-8) name of its class. */
  datatype GlobalVar = GlobalVar(address: Rva, tyName: seq<u8>)

  /** u64 subtraction as a release build computes it: modulo 2^64. */
  function WrappingSub(a: Va, k: nat): (r: Va)
    ensures a >= k ==> r == a - k
    ensures a < k && k <= U64_LIMIT ==> r == a - k + U64_LIMIT
  {
    (a - k) % U64_LIMIT
  }

  /** u32 addition as a release build computes it: modulo 2^32. */
  function WrappingAdd(a: Rva, k: nat): (r: Rva)
    ensures a + k < U32_LIMIT ==> r == a + k
    ensures U32_LIMIT <= a + k < 2 * U32_LIMIT ==> r == a + k - U32_LIMIT
  {
    (a + k) % U32_LIMIT
  }

  /** `CStr::to_str`, with its error mapped to Encoding. */
  function ToStr(b: seq<u8>): (r: Result<seq<u8>>)
    ensures r.Ok? <==> ValidUtf8(b)
    ensures r.Ok? ==> r.value == b
    ensures r.Err? ==> r.error == Encoding
  {
    if ValidUtf8(b) then Ok(b) else Err(Encoding)
  }

  /** Where the type descriptor is: its RVA and its fixed head. */
  datatype Descriptor = Descriptor(rva: Rva, head: TypeDescriptor)

  /** The vtable address stored at the candidate's RVA, which must lie in the image. */
  function ReadVtable(img: Image, address: Rva): (r: Result<Va>)
    ensures r.Ok? <==>
      address + 8 <= |img.bytes| && InImage(img, U64Of(img.bytes[address..address + 8]))
    ensures r.Ok? ==> r.value == U64Of(img.bytes[address..address + 8])
    ensures r.Err? ==> r.error == Bounds
  {
    var vtableVa :- DervaU64(img, address);
    var vtableRva :- VaToRva(img, vtableVa);
    Ok(vtableVa)
  }

  /**
   * From a vtable address to its type descriptor: the locator pointer sits
   * 8 bytes below the vtable, the locator names the descriptor's RVA, and the
   * descriptor's vftable must lie in the image. The first step that fails
   * gives the error; when every step succeeds the result is the descriptor
   * that was read.
   */
  function ReadTypeInfo(img: Image, vtableVa: Va): (r: Result<Descriptor>)
    ensures
      var colPtr := DerefPtr(img, WrappingSub(vtableVa, 8));
      r.Ok? <==>
        colPtr.Ok? && DerefLocator(img, colPtr.value).Ok?
        && DervaTypeDescriptor(img, DerefLocator(img, colPtr.value).value.typeDescriptor).Ok?
        && InImage(img, DervaTypeDescriptor(img, DerefLocator(img, colPtr.value).value.typeDescriptor).value.vftable)
    ensures
      var colPtr := DerefPtr(img, WrappingSub(vtableVa, 8));
      colPtr.Err? ==> r == Err(colPtr.error)
    ensures
      var colPtr := DerefPtr(img, WrappingSub(vtableVa, 8));
      colPtr.Ok? && DerefLocator(img, colPtr.value).Err? ==> r == Err(DerefLocator(img, colPtr.value).error)
    ensures
      var colPtr := DerefPtr(img, WrappingSub(vtableVa, 8));
      (colPtr.Ok? && DerefLocator(img, colPtr.value).Ok?
       && DervaTypeDescriptor(img, DerefLocator(img, colPtr.value).value.typeDescriptor).Err?)
      ==> r == Err(Bounds)
    ensures
      var colPtr := DerefPtr(img, WrappingSub(vtableVa, 8));
      (colPtr.Ok? && DerefLocator(img, colPtr.value).Ok?
       && DervaTypeDescriptor(img, DerefLocator(img, colPtr.value).value.typeDescriptor).Ok?
       && !InImage(img, DervaTypeDescriptor(img, DerefLocator(img, colPtr.value).value.typeDescriptor).value.vftable))
      ==> r == Err(Bounds)
    ensures r.Ok? ==>
      var colPtr := DerefPtr(img, WrappingSub(vtableVa, 8));
      colPtr.Ok? && DerefLocator(img, colPtr.value).Ok?
      && DerefLocator(img, colPtr.value).value.typeDescriptor == r.value.rva
      && DervaTypeDescriptor(img, r.value.rva) == Ok(r.value.head)
      && InImage(img, r.value.head.vftable)
  {
    var colPtr :- DerefPtr(img, WrappingSub(vtableVa, 8));
    var col :- DerefLocator(img, colPtr);
    var typeInfo :- DervaTypeDescriptor(img, col.typeDescriptor);
    var vftableRva :- VaToRva(img, typeInfo.vftable);
    Ok(Descriptor(col.typeDescriptor, typeInfo))
  }

  /**
   * The name after a descriptor head: `spare` must be null, and the text 16
   * bytes into the descriptor must be zero-terminated well-formed UTF-8.
   */
  function ReadName(img: Image, d: Descriptor): (r: Result<seq<u8>>)
    ensures d.head.spare != 0 ==> r == Err(Null)
    ensures d.head.spare == 0 && DervaCStr(img, WrappingAdd(d.rva, 16)).Err? ==> r == Err(Bounds)
    ensures d.head.spare == 0 && DervaCStr(img, WrappingAdd(d.rva, 16)).Ok? ==>
      r == (if ValidUtf8(DervaCStr(img, WrappingAdd(d.rva, 16)).value) then DervaCStr(img, WrappingAdd(d.rva, 16)) else Err(Encoding))
    ensures r.Ok? ==> CStrAt(img, WrappingAdd(d.rva, 16), r.value) && ValidUtf8(r.value)
  {
    if d.head.spare != 0 then Err(Null)
    else
      var name :- DervaCStr(img, WrappingAdd(d.rva, 16));
      var tyName :- ToStr(name);
      Ok(tyName)
  }

  /** `global`: reads the candidate at a file offset; the first step that fails gives the error. */
  function Global(img: Image, offset: nat): (r: Result<GlobalVar>)
    ensures r.Ok? ==> offset in img.offsetToRva && r.value.address == img.offsetToRva[offset]
    ensures r.Ok? ==> ValidUtf8(r.value.tyName)
  {
    var address :- FileOffsetToRva(img, offset);
    var vtableVa :- ReadVtable(img, address);
    var d :- ReadTypeInfo(img, vtableVa);
    var tyName :- ReadName(img, d);
    Ok(GlobalVar(address, tyName))
  }

  /** An offset outside the mapped part of the file is not a candidate. */
  lemma OffsetMustMap(img: Image, offset: nat)
    requires offset !in img.offsetToRva
    ensures Global(img, offset) == Err(Unmapped)
  {
  }

  /** A vtable pointer that does not lie in the buffer is refused with Bounds. */
  lemma VtableMustRead(img: Image, offset: nat, address: Rva)
    requires FileOffsetToRva(img, offset) == Ok(address)
    requires address + 8 > |img.bytes|
    ensures Global(img, offset) == Err(Bounds)
  {
  }

  /** A value that is not an address inside the image is not a vtable pointer. */
  lemma VtableMustTranslate(img: Image, offset: nat, address: Rva)
    requires FileOffsetToRva(img, offset) == Ok(address)
    requires address + 8 <= |img.bytes| && !InImage(img, U64Of(img.bytes[address..address + 8]))
    ensures Global(img, offset) == Err(Bounds)
  {
  }

  /** A locator pointer that cannot be read ends the chain with the read's own error. */
  lemma LocatorPtrMustRead(img: Image, offset: nat, address: Rva, vtableVa: Va)
    requires FileOffsetToRva(img, offset) == Ok(address)
    requires ReadVtable(img, address) == Ok(vtableVa)
    requires DerefPtr(img, WrappingSub(vtableVa, 8)).Err?
    ensures Global(img, offset) == Err(DerefPtr(img, WrappingSub(vtableVa, 8)).error)
  {
  }

  /** A locator that cannot be read ends the chain with the read's own error. */
  lemma LocatorMustRead(img: Image, offset: nat, address: Rva, vtableVa: Va, colPtr: Va)
    requires FileOffsetToRva(img, offset) == Ok(address)
    requires ReadVtable(img, address) == Ok(vtableVa)
    requires DerefPtr(img, WrappingSub(vtableVa, 8)) == Ok(colPtr)
    requires DerefLocator(img, colPtr).Err?
    ensures Global(img, offset) == Err(DerefLocator(img, colPtr).error)
  {
  }

  /** A type descriptor that does not lie in the buffer is refused with Bounds. */
  lemma DescriptorMustRead(img: Image, offset: nat, address: Rva, vtableVa: Va, colPtr: Va, col: Locator)
    requires FileOffsetToRva(img, offset) == Ok(address)
    requires ReadVtable(img, address) == Ok(vtableVa)
    requires DerefPtr(img, WrappingSub(vtableVa, 8)) == Ok(colPtr)
    requires DerefLocator(img, colPtr) == Ok(col)
    requires col.typeDescriptor + TYPE_DESCRIPTOR_SIZE > |img.bytes|
    ensures Global(img, offset) == Err(Bounds)
  {
  }

  /** A type descriptor whose vftable is not an address inside the image is refused. */
  lemma VftableMustTranslate(img: Image, offset: nat, address: Rva, vtableVa: Va, colPtr: Va, col: Locator, typeInfo: TypeDescriptor)
    requires FileOffsetToRva(img, offset) == Ok(address)
    requires ReadVtable(img, address) == Ok(vtableVa)
    requires DerefPtr(img, WrappingSub(vtableVa, 8)) == Ok(colPtr)
    requires DerefLocator(img, colPtr) == Ok(col)
    requires DervaTypeDescriptor(img, col.typeDescriptor) == Ok(typeInfo)
    requires !InImage(img, typeInfo.vftable)
    ensures Global(img, offset) == Err(Bounds)
  {
  }

  /** A type descriptor whose `spare` pointer is not null is refused with Null. */
  lemma SpareMustBeNull(img: Image, offset: nat, address: Rva, vtableVa: Va, d: Descriptor)
    requires FileOffsetToRva(img, offset) == Ok(address)
    requires ReadVtable(img, address) == Ok(vtableVa)
    requires ReadTypeInfo(img, vtableVa) == Ok(d)
    requires d.head.spare != 0
    ensures Global(img, offset) == Err(Null)
  {
  }

  /** A name with no zero byte after it in the buffer is refused with Bounds. */
  lemma NameMustTerminate(img: Image, offset: nat, address: Rva, vtableVa: Va, d: Descriptor)
    requires FileOffsetToRva(img, offset) == Ok(address)
    requires ReadVtable(img, address) == Ok(vtableVa)
    requires ReadTypeInfo(img, vtableVa) == Ok(d)
    requires d.head.spare == 0
    requires DervaCStr(img, WrappingAdd(d.rva, 16)).Err?
    ensures Global(img, offset) == Err(Bounds)
  {
  }

  /** A name that is not well-formed UTF-8 is refused with Encoding. */
  lemma NameMustBeUtf8(img: Image, offset: nat, address: Rva, vtableVa: Va, d: Descriptor, name: seq<u8>)
    requires FileOffsetToRva(img, offset) == Ok(address)
    requires ReadVtable(img, address) == Ok(vtableVa)
    requires ReadTypeInfo(img, vtableVa) == Ok(d)
    requires d.head.spare == 0
    requires DervaCStr(img, WrappingAdd(d.rva, 16)) == Ok(name) && !ValidUtf8(name)
    ensures Global(img, offset) == Err(Encoding)
  {
  }

  /** A candidate that passes every step is read as its RVA and its name. */
  lemma GlobalSucceeds(img: Image, offset: nat, address: Rva, vtableVa: Va, d: Descriptor, name: seq<u8>)
    requires FileOffsetToRva(img, offset) == Ok(address)
    requires ReadVtable(img, address) == Ok(vtableVa)
    requires ReadTypeInfo(img, vtableVa) == Ok(d)
    requires d.head.spare == 0
    requires DervaCStr(img, WrappingAdd(d.rva, 16)) == Ok(name) && ValidUtf8(name)
    ensures Global(img, offset) == Ok(GlobalVar(address, name))
  {
  }

  /**
   * A 58-byte image, mapped at base 8, holding one global at file offset 0:
   * its vtable pointer (VA 24), the locator pointer below the vtable (VA 24),
   * a locator whose type descriptor sits at RVA 40, and that descriptor with
   * vftable 8, a null spare field and the name "A".
   */
  const ExampleBytes: seq<u8> :=
    [24, 0, 0, 0, 0, 0, 0, 0]                          // offset 0: the global's vtable pointer
    + [24, 0, 0, 0, 0, 0, 0, 0]                        // RVA 8: the locator pointer
    + [0, 0, 0, 0, 0, 0, 0, 0, 0, 0, 0, 0, 40, 0, 0, 0, 0, 0, 0, 0, 0, 0, 0, 0]
                                                       // RVA 16: the locator, naming RVA 40
    + [8, 0, 0, 0, 0, 0, 0, 0]                         // RVA 40: the vftable
    + [0, 0, 0, 0, 0, 0, 0, 0]                         // RVA 48: the spare field
    + [65, 0]                                          // RVA 56: the name "A"

  const ExampleImage := Image(ExampleBytes, 8, 58, map[0 := 0])

  /** The example's vtable pointer, VA 24, lies in the image. */
  lemma ExampleVtable(img: Image)
    requires img == ExampleImage
    ensures ReadVtable(img, 0) == Ok(24)
  {
    assert img.bytes[0..8] == [24, 0, 0, 0, 0, 0, 0, 0];
    LittleEndian.LowByteDecode(img.bytes[0..8]);
  }

  /** The locator pointer 8 bytes below the example's vtable is VA 24. */
  lemma ExampleLocatorPtr(img: Image)
    requires img == ExampleImage
    ensures DerefPtr(img, WrappingSub(24, 8)) == Ok(24)
  {
    assert img.bytes[8..16] == [24, 0, 0, 0, 0, 0, 0, 0];
    LittleEndian.LowByteDecode(img.bytes[8..16]);
  }

  /** The example's locator, behind the locator pointer, names the descriptor at RVA 40. */
  lemma ExampleLocator(img: Image)
    requires img == ExampleImage
    ensures DerefLocator(img, 24).Ok? && DerefLocator(img, 24).value.typeDescriptor == 40
  {
    var b := img.bytes[16..40];
    assert Deref(img, 24, LOCATOR_SIZE) == Ok(b);
    assert b[12..16] == img.bytes[28..32] == [40, 0, 0, 0];
    LittleEndian.LowByteDecode(b[12..16]);
  }

  /** The example's descriptor head: vftable 8, which lies in the image, and a null spare field. */
  lemma ExampleDescriptor(img: Image)
    requires img == ExampleImage
    ensures DervaTypeDescriptor(img, 40) == Ok(TypeDescriptor(8, 0))
    ensures InImage(img, 8)
  {
    assert img.bytes[40..48] == [8, 0, 0, 0, 0, 0, 0, 0];
    LittleEndian.LowByteDecode(img.bytes[40..48]);
    assert img.bytes[48..56] == [0, 0, 0, 0, 0, 0, 0, 0];
    LittleEndian.ZerosDecode(img.bytes[48..56]);
  }

  /** The example's vtable leads to the descriptor at RVA 40. */
  lemma ExampleTypeInfo(img: Image)
    requires img == ExampleImage
    ensures ReadTypeInfo(img, 24) == Ok(Descriptor(40, TypeDescriptor(8, 0)))
  {
    ExampleLocatorPtr(img);
    ExampleLocator(img);
    ExampleDescriptor(img);
  }

  /** The example's name, 16 bytes into the descriptor, is "A". */
  lemma ExampleName(img: Image)
    requires img == ExampleImage
    ensures DervaCStr(img, WrappingAdd(40, 16)) == Ok([65])
  {
    assert img.bytes[56..] == [65, 0];
    assert img.bytes[56] == 65 && img.bytes[57] == 0;
    var r := DervaCStr(img, 56);
    assert r.Ok?;
    assert |r.value| == 1 && r.value == img.bytes[56..57] == [65];
  }

  /** The scanner reads the example image's one global at offset 0. */
  lemma GlobalExample(img: Image)
    requires img == ExampleImage
    ensures Global(img, 0) == Ok(GlobalVar(0, [65]))
  {
    ExampleVtable(img);
    ExampleTypeInfo(img);
    ExampleName(img);
    assert ValidUtf8([65]);
    GlobalSucceeds(img, 0, 0, 24, Descriptor(40, TypeDescriptor(8, 0)), [65]);
  }

  /**
   * What a successful read establishes: the address is the RVA of the
   * offset; the u64 there is a vtable address inside the image; the
   * descriptor reached from 8 bytes below it has a null `spare`; and the name
   * is the zero-terminated, well-formed UTF-8 text 16 bytes into that
   * descriptor.
   */
  lemma GlobalOk(img: Image, offset: nat, g: GlobalVar)
    requires Global(img, offset) == Ok(g)
    ensures offset in img.offsetToRva && g.address == img.offsetToRva[offset]
    ensures g.address + 8 <= |img.bytes|
    ensures
      var vtableVa := U64Of(img.bytes[g.address..g.address + 8]);
      InImage(img, vtableVa) && ReadTypeInfo(img, vtableVa).Ok?
      && ReadTypeInfo(img, vtableVa).value.head.spare == 0
      && CStrAt(img, WrappingAdd(ReadTypeInfo(img, vtableVa).value.rva, 16), g.tyName)
    ensures ValidUtf8(g.tyName)
  {
    GlobalStages(img, offset, g);
  }

  /** A successful read passed every stage, each with the result the next one used. */
  lemma GlobalStages(img: Image, offset: nat, g: GlobalVar)
    requires Global(img, offset) == Ok(g)
    ensures FileOffsetToRva(img, offset) == Ok(g.address)
    ensures ReadVtable(img, g.address).Ok?
    ensures ReadTypeInfo(img, ReadVtable(img, g.address).value).Ok?
    ensures ReadName(img, ReadTypeInfo(img, ReadVtable(img, g.address).value).value) == Ok(g.tyName)
  {
  }

  /**
   * With an image base of at least 8, a vtable address that lies in the
   * image is at least 8, so `vtable_va - 8` does not wrap.
   */
  lemma VtableNoWrap(img: Image, vtableVa: Va)
    requires img.imageBase >= 8 && InImage(img, vtableVa)
    ensures WrappingSub(vtableVa, 8) == vtableVa - 8
  {
  }

  /**
   * A type descriptor head that could be read lies inside the buffer, so for
   * a buffer below 4 GiB `type_descriptor + 16` does not wrap and is the
   * offset just past the head.
   */
  lemma NameOffsetNoWrap(img: Image, td: Rva)
    requires DervaTypeDescriptor(img, td).Ok? && |img.bytes| < U32_LIMIT
    ensures WrappingAdd(td, 16) == td + TYPE_DESCRIPTOR_SIZE
  {
  }

  const ConVar: seq<u8> := ByteStrings.Ascii("ConVar")
  const ConCommand: seq<u8> := ByteStrings.Ascii("ConCommand")
  const TypeInfo: seq<u8> := ByteStrings.Ascii("type_info")

  /** The names the scan drops: console variables, console commands and `type_info` itself. */
  predicate IsNoise(name: seq<u8>): (b: bool)
    ensures b <==>
      (exists i :: ByteStrings.MatchAt(name, ConVar, i))
      || (exists i :: ByteStrings.MatchAt(name, ConCommand, i))
      || (exists i :: ByteStrings.MatchAt(name, TypeInfo, i))
  {
    ByteStrings.ContainsIff(name, ConVar);
    ByteStrings.ContainsIff(name, ConCommand);
    ByteStrings.ContainsIff(name, TypeInfo);
    ByteStrings.Contains(name, ConVar)
    || ByteStrings.Contains(name, ConCommand)
    || ByteStrings.Contains(name, TypeInfo)
  }
}
