# pelite: Pod byte views and the apex RTTI global scanner

This project models two parts of the pelite PE reader.

**Podness** (`src/util/pod.rs`). A type is Pod when every byte pattern of its
size is one of its values. Only such types may be read straight out of an
untrusted image.
- `PodType` describes the qualifying types: the fixed-width integers, `f32`/`f64`
  as opaque bit patterns, slices of a sized Pod type, and arrays of a sized Pod
  type for the lengths that the `impl_pod_array!` invocations list.
- `AsBytes` is the byte view (`as_bytes`). Its length is `Size`, which is
  `size_of_val`.
- `FromBytes` is the reinterpretation the trait's safety contract permits. It
  is total on inputs of the right length, and the two round trips are proved.
- `PodCell` models a value that lives in memory. `as_bytes_mut` hands out the
  cell's own storage, and a write through that storage changes the held value.

**The apex global scanner** (`examples/apex/globals.rs`).
- `Global` is the `?`-chain of `global`. It translates a file offset to an RVA
  and reads the vtable pointer there. It reads the locator pointer stored 8
  bytes below the vtable address, follows it to the complete object locator,
  and from there to the type descriptor. It checks the vftable and the null
  `spare` field, and reads the zero-terminated UTF-8 name 16 bytes into the
  descriptor.
- `Globals` is `globals`. It tries every 8-byte-aligned file offset, skips the
  offsets that fail, drops names that contain `ConVar`, `ConCommand` or
  `type_info`, and stable-sorts what is left by name.

Modules:
- `PeResult`: error kinds, and `Result` with `:-` in the role of `?`.
- `LittleEndian`: the byte encoding of numbers.
- `Pod`: the type universe, the byte view, decoding, array lengths and `PodCell`.
- `PeImage`: a minimal abstract image with the reads the scanner calls.
- `Rtti`: locator and type-descriptor decoding.
- `Utf8`: Table 3-7 well-formedness of the Unicode Standard.
- `ByteStrings`: string order and substring search on bytes.
- `ApexGlobals`: `global` and the noise filter.
- `NameSort`: the stable sort.
- `GlobalScan`: the scan loop and `globals`.

The image operations (`file_offset_to_rva`, `va_to_rva`, `derva`, `deref`,
`derva_c_str`) belong to the library, and their code is not part of this
model. `PeImage` gives them the behaviour the scanner relies on:
- `derva` succeeds exactly when `rva + size` is within the buffer.
- `deref` refuses null and is `va_to_rva` followed by `derva`.
- `va_to_rva` accepts exactly the addresses from the image base to
  SizeOfImage past it.
- `file_offset_to_rva` is a partial map.
- `derva_c_str` needs a zero byte at or after the RVA.

`globals` does no deduplication (examples/apex/globals.rs:19-28): two offsets
that yield the same entry both appear in its result.

## Model

| member | source | states |
|---|---|---|
| Pod.PrimitiveSizes | src/util/pod.rs:25-36 | the Pod primitives have the sizes of their impls: i8/u8 1, i16/u16 2, i32/u32/f32 4, i64/u64/f64 8 bytes |
| Pod.AsBytes | src/util/pod.rs:17-19 | the byte view of a value of a Pod type is exactly `size_of_val` bytes long |
| Pod.FromBytes | src/util/pod.rs:11-13 | any byte sequence whose length is the type's size decodes to a value of that type (decoding is total) |
| Pod.FromAsBytes | src/util/pod.rs:11-19 | reinterpreting the byte view of any value gives back that value |
| Pod.AsFromBytes | src/util/pod.rs:11-19 | the byte view of what any right-sized bytes decode to is those bytes, so every bit pattern is a distinct value |
| Pod.SignedRoundTrip | src/util/pod.rs:25-28 | a signed integer's two's-complement bit pattern reads back as the same integer |
| Pod.UnsignedRoundTrip | src/util/pod.rs:25-33 | every bit pattern of an integer type is the pattern of exactly the integer it reads as |
| Pod.ArrayElementBytes | src/util/pod.rs:40-48 | `[T; n]` is n·size_of(T) bytes, and element i's bytes are the i-th stretch of size_of(T) bytes of the array's bytes |
| Pod.SliceElementBytes | src/util/pod.rs:38 | a `[T]` of m elements is m·size_of(T) bytes laid out element by element |
| Pod.ImplPodArray | src/util/pod.rs:40-48 | one macro invocation implements Pod for exactly the lengths in its token list, which must be non-empty |
| Pod.ArrayLengthsExact | src/util/pod.rs:49-51 | the three invocations give array Pod-ness for exactly 0 to 31 and 32, 48, 64, 80, 100, 128, 160, 192, 256, 512, 768, 1024, 2048, 4096 |
| Pod.ArrayIsPod | src/util/pod.rs:40-51 | `[T; n]` is Pod exactly when T is a sized Pod type and one of the three macro invocations lists n |
| Pod.PodCell.Bytes | src/util/pod.rs:17-19 | `as_bytes` of the held value is the cell's storage itself |
| Pod.PodCell.BytesMut | src/util/pod.rs:20-22 | `as_bytes_mut` returns the cell's own storage, of the type's size, for every Pod type including a `[T]` of any length |
| Pod.PodCell.WriteByte | src/util/pod.rs:20-22 | writing byte k through the mutable view changes byte k of `as_bytes` to the new byte and leaves every other byte unchanged; the held value becomes what the new bytes decode to |
| Pod.PodCell.constructor | src/util/pod.rs:16-19 | a cell created from a value holds that value |
| PeImage.U64Of | examples/apex/globals.rs:33 | a `u64` read from the image is the Pod decoding of its 8 little-endian bytes |
| PeImage.DervaU64 | examples/apex/globals.rs:33 | `derva::<u64>` succeeds exactly when the 8 bytes lie in the buffer, reads their little-endian value, and fails with Bounds otherwise |
| PeImage.FileOffsetToRva | examples/apex/globals.rs:32 | the RVA of a mapped file offset, Unmapped for any other offset |
| PeImage.VaToRva | examples/apex/globals.rs:34 | succeeds exactly for addresses inside the image, giving the distance from the image base; Bounds otherwise |
| PeImage.Derva | examples/apex/globals.rs:33-37 | `derva` succeeds exactly when `rva + size` is within the buffer, giving the `size` bytes at `rva`, and fails with Bounds otherwise |
| PeImage.Deref | examples/apex/globals.rs:35-36 | null fails with Null; otherwise the read succeeds exactly when the address translates and the bytes lie in the buffer |
| PeImage.DerefPtr | examples/apex/globals.rs:35 | `deref` of a pointer: the little-endian u64 at the address, with the error of the underlying read |
| PeImage.DervaCStr | examples/apex/globals.rs:42 | succeeds exactly when a zero byte follows the RVA in the buffer; the result is the text up to the first zero byte |
| Rtti.U32At | examples/apex/globals.rs:36 | a u32 field of the locator is the Pod decoding of its 4 little-endian bytes |
| Rtti.DerefLocator | examples/apex/globals.rs:36 | the locator is read from the 24 bytes at the address, with the error of the underlying read |
| Rtti.DervaTypeDescriptor | examples/apex/globals.rs:37 | the descriptor head is read from 16 bytes in the buffer: vftable then spare, each a little-endian u64; Bounds otherwise |
| ApexGlobals.WrappingSub | examples/apex/globals.rs:35 | `vtable_va - 8` in u64 arithmetic: exact without underflow, wrapped by 2^64 with it |
| ApexGlobals.WrappingAdd | examples/apex/globals.rs:42 | `type_descriptor + 16` in u32 arithmetic: exact without overflow, wrapped by 2^32 with it |
| ApexGlobals.ToStr | examples/apex/globals.rs:42 | the name succeeds unchanged exactly when it is well-formed UTF-8, and fails with Encoding otherwise |
| ApexGlobals.ReadVtable | examples/apex/globals.rs:33-34 | the u64 at the candidate's RVA is the vtable address; it succeeds exactly when that address lies in the image |
| ApexGlobals.ReadTypeInfo | examples/apex/globals.rs:35-38 | succeeds exactly when the locator pointer at `vtable_va - 8`, the locator, and the descriptor it names can all be read and the descriptor's vftable lies in the image; the first read that fails gives its own error, and a vftable outside the image gives Bounds; on success the result is the descriptor read at the locator's RVA |
| ApexGlobals.ReadName | examples/apex/globals.rs:39-42 | non-null `spare` gives Null; otherwise the zero-terminated text at `type_descriptor + 16` is returned if it is UTF-8, and the error is Bounds or Encoding if not |
| ApexGlobals.Global | examples/apex/globals.rs:31-44 | `global` is the `?`-chain FileOffsetToRva, ReadVtable, ReadTypeInfo, ReadName; a success has the offset's RVA as its address and a well-formed UTF-8 name. GlobalOk gives the rest of a success, GlobalSucceeds the converse, and the lemmas OffsetMustMap to NameMustBeUtf8 give each step's failure |
| ApexGlobals.OffsetMustMap | examples/apex/globals.rs:32 | an unmapped file offset fails with Unmapped |
| ApexGlobals.VtableMustRead | examples/apex/globals.rs:33 | a candidate RVA with fewer than 8 bytes after it in the buffer ends `global` with Bounds |
| ApexGlobals.VtableMustTranslate | examples/apex/globals.rs:33-34 | a value that is not an address in the image is rejected with Bounds |
| ApexGlobals.LocatorPtrMustRead | examples/apex/globals.rs:35 | a locator pointer that cannot be read at `vtable_va - 8` ends `global` with that read's error |
| ApexGlobals.LocatorMustRead | examples/apex/globals.rs:36 | a locator that cannot be read ends `global` with that read's error |
| ApexGlobals.DescriptorMustRead | examples/apex/globals.rs:37 | a type descriptor that does not lie in the buffer ends `global` with Bounds |
| ApexGlobals.VftableMustTranslate | examples/apex/globals.rs:38 | a descriptor whose vftable is not an address in the image is rejected with Bounds |
| ApexGlobals.SpareMustBeNull | examples/apex/globals.rs:39-41 | a descriptor with a non-null `spare` makes `global` fail with Null |
| ApexGlobals.NameMustTerminate | examples/apex/globals.rs:42 | a name with no zero byte after it in the buffer ends `global` with Bounds |
| ApexGlobals.NameMustBeUtf8 | examples/apex/globals.rs:42 | a name that is not well-formed UTF-8 makes `global` fail with Encoding |
| ApexGlobals.GlobalSucceeds | examples/apex/globals.rs:31-44 | the converse of GlobalOk: when the offset maps, the vtable reads, the descriptor reads with a null `spare`, and a well-formed UTF-8 name follows it, `global` succeeds with exactly that RVA and name |
| ApexGlobals.GlobalExample | examples/apex/globals.rs:31-44 | a 58-byte image with one global at file offset 0 (vtable, locator pointer, locator, descriptor and the name "A") is read as that global at RVA 0 named "A" |
| ApexGlobals.GlobalOk | examples/apex/globals.rs:31-44 | on success: the address is the RVA of the offset; the u64 there is a vtable address in the image; the descriptor reached from 8 bytes below it has a null `spare`; the name is the zero-terminated UTF-8 text 16 bytes into that descriptor |
| ApexGlobals.VtableNoWrap | examples/apex/globals.rs:35 | with an image base of at least 8, `vtable_va - 8` cannot underflow for a vtable address in the image |
| ApexGlobals.NameOffsetNoWrap | examples/apex/globals.rs:42 | for a buffer below 4 GiB, `type_descriptor + 16` of a descriptor that could be read does not overflow |
| ApexGlobals.IsNoise | examples/apex/globals.rs:21 | a name is noise exactly when "ConVar", "ConCommand" or "type_info" occurs in it at some index |
| ByteStrings.ContainsIff | examples/apex/globals.rs:21 | `contains` finds the pattern exactly when it occurs at some index |
| ByteStrings.LessTotal | examples/apex/globals.rs:27 | the name order compares any two different names |
| ByteStrings.LessTransitive | examples/apex/globals.rs:27 | the name order is transitive |
| ByteStrings.LessIrreflexive | examples/apex/globals.rs:27 | no name is smaller than itself |
| NameSort.SortByName | examples/apex/globals.rs:27 | after `sort_by_key` on the type name the entries are in non-decreasing name order, and the entries with each name are the same as before and in the same order (stable) |
| NameSort.InsertLeft | examples/apex/globals.rs:27 | one insertion step extends the sorted prefix by one entry, changes no name's entries, and leaves the entries after it untouched |
| NameSort.InsertStep | examples/apex/globals.rs:27 | one swap of an entry past a strictly greater name keeps the sorted runs on both sides, each name's entries, and everything past the step's end |
| NameSort.SameNamesPermutation | examples/apex/globals.rs:27-28 | a stable reordering is a permutation |
| NameSort.StableSortUnique | examples/apex/globals.rs:27-28 | two sorted sequences with the same entries name by name are equal, so the result is the one any stable sort by name gives |
| GlobalScan.Slots | examples/apex/globals.rs:19-20 | the scan tries `len / 8` offsets: every tried offset `8·i` has 8 bytes of buffer from it on, and the first untried one does not |
| GlobalScan.CandidateAt | examples/apex/globals.rs:19-20 | the i-th tried candidate is `global` at offset `8·i`, so offsets are tried in increasing order |
| GlobalScan.KeptMembers | examples/apex/globals.rs:19-25 | an entry is collected exactly when some tried offset yields it and its name is not noise; failed offsets contribute nothing and do not stop the scan |
| GlobalScan.KeptStep | examples/apex/globals.rs:20-24 | each offset appends its entry to the collected ones when it succeeds with a name that is not noise, and appends nothing otherwise |
| GlobalScan.Scan | examples/apex/globals.rs:18-25 | the loop collects exactly the kept entries, in scan order |
| GlobalScan.Globals | examples/apex/globals.rs:16-29 | the result is sorted by name and is a permutation of the collected entries that keeps scan order within each name |
| GlobalScan.GlobalsMembers | examples/apex/globals.rs:16-29 | an entry is in the result of `globals` exactly when some tried offset yields it with a name that is not noise |
| GlobalScan.KeptHasNoNoise | examples/apex/globals.rs:21 | no collected name contains "ConVar", "ConCommand" or "type_info" |

## Left out

- `examples/version_info.rs` is not part of this model. It handles command-line arguments, maps files and prints resource text.
- `print` in `examples/apex/globals.rs` is not modelled, because it only writes to stdout.
- The library's image code is not part of this model: section-table translation for `file_offset_to_rva`, the PE32/PE32+ dispatch, and the alignment checks and finer error kinds of `derva`/`deref`. `PeImage` states only the bounds and translation behaviour the scanner relies on, and it addresses the buffer directly by RVA.
- The RTTI record layouts (`RTTICompleteObjectLocator`, `TypeDescriptor`) come from the library's msvc module, which is not part of this model. They are taken as the MSVC x64 layouts: a 24-byte locator with the descriptor RVA at byte 12, and a 16-byte descriptor head (vftable, spare).
- `f32`/`f64` are opaque 4- and 8-byte bit patterns, with no numeric semantics.
- Raw-pointer casts, lifetimes and the `'static` bound have no counterpart. The byte view is modelled as a function of the value, and `as_bytes_mut` as the cell's own storage.
- Pod.AsBytes: stated for the little-endian targets a PE image is read on; a big-endian host's native layout is not modelled.
- Pod.ArrayElementBytes: arrays and slices of slices are excluded (`[T]` is unsized), and zero-sized or padded user types are not in the type universe.
- ApexGlobals.WrappingSub: a debug build panics where a release build wraps; the model follows the release build, and VtableNoWrap shows that no wrap happens when the image base is at least 8.
- ApexGlobals.WrappingAdd: as for WrappingSub, a debug build's overflow panic is not modelled.
- ApexGlobals.ToStr: UTF-8 validity is the well-formedness of Table 3-7 of the Unicode Standard, with no decoding to scalar values.
- NameSort.SortByName: the standard library's merge sort is modelled by a stable insertion sort. StableSortUnique shows that every stable sort by name gives the same result.
- GlobalScan.Globals: the `Vec` growth and the borrow of names from the image buffer are not modelled; the names are copies of the bytes.
