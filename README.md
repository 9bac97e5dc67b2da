# rust-libxdc in Dafny

This is a model of the Rust wrapper around the libxdc Intel PT decoder, with proofs about it. It has three parts.

- **The executable page cache** (`ElfExecutablePageCache`). It is built once from an ELF executable and holds a map from relocated virtual address to one 4096-byte page.
  - Only the program headers that are `PT_LOAD` and executable contribute.
  - Each such segment's file bytes are zero-extended to the segment's memory length.
  - The bytes are then cut into whole pages; a trailing partial page is dropped.
  - Each page address is relocated from the start of the first `PT_LOAD` header to the chosen runtime base.
  - The pages go into one map, and a later segment overwrites an earlier one.
  - `get_page_data` lends out the buffer stored under exactly the requested address.
- **`DecoderResult`**. This is the classification of the engine's return code: codes 0 to 4 name the five outcomes, and any other code is an error.
- **The `LibXDC` session wrapper**. This covers:
  - construction: the four filters are flattened, a zero-filled coverage bitmap is allocated, and the engine is initialised;
  - the page-fetch trampoline the engine calls back;
  - `decode` with its `0x55` end-of-trace sentinel;
  - releasing the engine handle on drop.

Modules:

- `Common` (`common.dfy`): machine integer ranges, `Option`, `Result`, and `Outcome`, which is a return value or a panic.
- `DecoderResults` (`decoder_result.dfy`): the enum, its discriminants, `TryFrom` and the derived order.
- `ElfPages` (`elf_pages.dfy`): the construction pipeline as pure functions over sequences. `ExecutablePageData` is the whole construction as a value: either the page map and base, or the failure.
- `ElfPagesProperties` (`elf_pages_properties.dfy`): the lemmas about that pipeline.
- `ElfPageCache` (`elf_page_cache.dfy`): the cache as a class.
  - The `pageData` field maps each address to its own page `array`.
  - The construction method builds the cache in place.
  - The method is proved to produce exactly the map that `ExecutablePageData` describes.
- `LibXdc` (`libxdc.dfy`): the `LibXDC` class, the trampoline and the sentinel helper of the tester binary.
  - The foreign engine is an `Engine` object.
  - It records what it was initialised with and every decode request it receives.
  - An `EngineOracle` stands for its answers.

A panic in the source (`assert!`, `expect`, an out-of-range slice) is modelled as a distinguished result rather than as a precondition. For construction this is `BuildError.IsPanic()`; for the session it is `Outcome.Panicked`. Where the source returns `Err` instead, so does the model.

## Model

| member | source | states |
|---|---|---|
| DecoderResults.TryFrom | src/decoder_result.rs:13-30 | the conversion succeeds exactly for codes below 5; on success the variant's discriminant equals the code (the asserted round trip); otherwise the error carries the code |
| DecoderResults.AsCode | src/decoder_result.rs:3-11 | every variant's discriminant is one of the five codes 0..4 |
| DecoderResults.TryFromAsCode | src/decoder_result.rs:3-24 | converting any variant to its discriminant and back gives that variant |
| DecoderResults.TryFromInjective | src/decoder_result.rs:17-22 | two codes that convert to the same variant are equal |
| DecoderResults.DerivedOrder | src/decoder_result.rs:3-11 | the derived order is Success < SuccessPtOverflow < PageFault < Error < UnknownPacket; it agrees with the order of the codes and is a strict total order |
| ElfPages.ZeroExtend | src/elf_executable_page_cache.rs:58-59 | resizing keeps the copied bytes as a prefix, reaches the memory length, and fills the rest with zeros |
| ElfPages.Chunks | src/elf_executable_page_cache.rs:60-61 | `chunks_exact` yields length / 0x1000 pages, rounded down, so a trailing partial page is dropped |
| ElfPages.ChunksAt | src/elf_executable_page_cache.rs:60-61 | chunk i is exactly bytes [i*0x1000, (i+1)*0x1000) of its input |
| ElfPages.SegmentBytes | src/elf_executable_page_cache.rs:55-59 | the bytes of a segment have its memory length |
| ElfPages.PageAddress | src/elf_executable_page_cache.rs:62-64 | the address of page i, `vm_start + i*0x1000`, leaves the whole page inside the memory range, so the `u64` conversion cannot fail |
| ElfPages.SegmentPages | src/elf_executable_page_cache.rs:55-67 | a segment yields `vm_len / 0x1000` entries; entry i is keyed at `vm_start + i*0x1000` and holds exactly one page |
| ElfPages.FirstLoadFrom | src/elf_executable_page_cache.rs:42-46 | the index found is the first `PT_LOAD` header, whatever its flags; no index means there is no `PT_LOAD` header |
| ElfPagesProperties.SegmentPageBytes | src/elf_executable_page_cache.rs:58-65 | byte o of page i is the file byte at offset i*0x1000+o while that lies within the file range, and 0 past it |
| ElfPagesProperties.RelocateInjective | src/elf_executable_page_cache.rs:72-74 | wrapping relocation with fixed bases sends distinct addresses to distinct keys |
| ElfPagesProperties.SegmentKeysDistinct | src/elf_executable_page_cache.rs:60-68 | the pages of one segment get pairwise distinct relocated keys |
| ElfPagesProperties.SegmentMapAt | src/elf_executable_page_cache.rs:60-68 | page i of a segment is stored under its relocated key in that segment's map |
| ElfPagesProperties.SegmentMapKeys | src/elf_executable_page_cache.rs:60-68 | every key of a segment's map is the relocated key of one of its pages, and conversely |
| ElfPagesProperties.BuildMapKeys | src/elf_executable_page_cache.rs:75 | a key is in the collected map exactly when some entry carries it |
| ElfPagesProperties.BuildMapLastWins | src/elf_executable_page_cache.rs:75 | an entry whose key no later entry repeats determines that key's value, so a later entry overwrites an earlier one |
| ElfPagesProperties.BuildMapAppend | src/elf_executable_page_cache.rs:68-75 | collecting a concatenation gives the right-biased union of the two maps |
| ElfPagesProperties.BuildMapReorder | src/elf_executable_page_cache.rs:75 | two sequences of entries with pairwise distinct keys and the same entries collect to the same map, whatever their order |
| ElfPagesProperties.SegmentOrderImmaterial | src/elf_executable_page_cache.rs:60-75 | any order in which the per-segment `HashMap` hands one segment's pages to `flatten`, among any other entries, builds the same final map as chunk order |
| ElfPagesProperties.BuildMapShift | src/elf_executable_page_cache.rs:72-75 | shifting every key before collecting shifts the keys of the map and keeps the values |
| ElfPagesProperties.RelocateShift | src/elf_executable_page_cache.rs:73 | relocating to another base moves the key by the difference of the bases, modulo 2^64 |
| ElfPagesProperties.ShiftInjective | src/elf_executable_page_cache.rs:73 | a wrapping shift is injective |
| ElfPagesProperties.ShiftInverse | src/elf_executable_page_cache.rs:73 | shifting back by the same amount undoes a wrapping shift |
| ElfPagesProperties.CollectedMapStep | src/elf_executable_page_cache.rs:48-75 | a header that is not an executable `PT_LOAD` adds nothing; a contributing header passes its checks, and its pages are overwritten by those of later headers |
| ElfPagesProperties.CollectedKeys | src/elf_executable_page_cache.rs:48-75 | a key is in the map exactly when some page of a contributing header is relocated to it |
| ElfPagesProperties.CollectedLaterWins | src/elf_executable_page_cache.rs:68-75 | the map holds a page under its key whenever no later contributing header produces that key |
| ElfPagesProperties.CollectPagesOk | src/elf_executable_page_cache.rs:48-71 | collecting succeeds exactly when every contributing header has a file range no longer than its memory range and inside the file |
| ElfPagesProperties.CollectPagesFirstFailure | src/elf_executable_page_cache.rs:48-71 | a failure names the first contributing header that fails a check; the length assertion is checked before the slice bounds |
| ElfPagesProperties.CollectPagesWhole | src/elf_executable_page_cache.rs:60-67 | every collected entry is exactly one page long, which is what `page_data_from_slice` asserts |
| ElfPagesProperties.PagePlanWhole | src/elf_executable_page_cache.rs:60-75 | every entry planned for the map is exactly one page long |
| ElfPagesProperties.ImageIsCollectedMap | src/elf_executable_page_cache.rs:34-79 | a built image has the chosen base, and its map is the collected map relocated from the first `PT_LOAD` start |
| ElfPagesProperties.ExecutablePageDataOutcome | src/elf_executable_page_cache.rs:23-80 | an unparseable or non-ELF file returns `Err`; a 32-bit ELF, an ELF with no `PT_LOAD` header, and the first contributing header whose file range is longer than its memory range or falls outside the file all panic; construction succeeds exactly when none of these applies |
| ElfPagesProperties.MappedBaseChosen | src/elf_executable_page_cache.rs:34-41 | the stored base is the caller's, or 0x0000555555554000 when the caller gives none |
| ElfPagesProperties.PageCacheKeys | src/elf_executable_page_cache.rs:42-75 | the keys are exactly `vm_start + i*0x1000 - elf_mapped_base + mapped_base` (mod 2^64), one for each whole page i of each contributing header |
| ElfPagesProperties.PageCacheContents | src/elf_executable_page_cache.rs:55-75 | when no later header reuses a page's key, the cache holds that page under it: the file bytes at that offset, and zero past the file length |
| ElfPagesProperties.RebaseShiftsKeys | src/elf_executable_page_cache.rs:34-78 | changing only the base does not change whether or how construction fails; every key moves by the difference of the bases, and every page is unchanged |
| ElfPagesProperties.AlignedKeys | src/elf_executable_page_cache.rs:64-73 | keys are page-aligned when the first load segment, the contributing segments and the base all start on page boundaries |
| ElfPagesProperties.UnalignedSegmentGivesUnalignedKey | src/elf_executable_page_cache.rs:64-73 | a contributing segment that starts off a page boundary gives an unaligned key even with aligned bases, since nothing rounds |
| ElfPagesProperties.PageAddressAligned | src/elf_executable_page_cache.rs:64 | the pages of a segment starting on a page boundary start on page boundaries |
| ElfPagesProperties.RelocateAligned | src/elf_executable_page_cache.rs:73 | relocating an aligned address between aligned bases gives an aligned key |
| ElfPagesProperties.RelocateUnaligned | src/elf_executable_page_cache.rs:73 | relocating an unaligned address between aligned bases gives an unaligned key |
| ElfPagesProperties.OnePageScenario | src/elf_executable_page_cache.rs:23-80 | one executable page-sized load segment at 0x1000, relocated to 0x555000, gives exactly that page at 0x555000 |
| ElfPageCache.PageDataFromSlice | src/elf_executable_page_cache.rs:12-18 | a fresh page buffer whose contents equal the 0x1000-byte slice |
| ElfPageCache.ElfExecutablePageCache.ExecutablePageDataForElf | src/elf_executable_page_cache.rs:23-80 | fails exactly when, and with the same error as, the page map function `ExecutablePageData`; otherwise the cache holds exactly that function's map, one fresh buffer per page, under the chosen base |
| ElfPageCache.ElfExecutablePageCache.GetPageData | src/elf_executable_page_cache.rs:81-83 | a buffer is returned exactly when that exact address is a key; it is the stored buffer itself (lent, not copied), holding that key's page; nothing changes |
| LibXdc.FlattenFiltersInverse | src/lib.rs:94 | the four filter pairs become four `[start, end]` slots, in order, and can be read back unchanged |
| LibXdc.WithTraceEnd | src/bin/tester.rs:71-74 | the prepared trace always ends with 0x55; a trace already ending with 0x55 is unchanged, and any other trace gets exactly one 0x55 appended |
| LibXdc.WithTraceEndIdempotent | src/bin/tester.rs:71-74 | preparing a prepared trace changes nothing |
| LibXdc.WithTraceEndAgrees | src/bin/tester.rs:71-74 | a trace without the sentinel and the same trace with it appended prepare to the same buffer |
| LibXdc.Classify | src/lib.rs:162 | `decode` returns normally exactly for codes below 5, with the variant whose discriminant is the code, and panics on any other code |
| LibXdc.LibxdcInit | src/lib.rs:104-110 | the engine handle is null exactly when initialisation fails; otherwise it is a fresh engine holding the filters, bitmap, size and fetch context it was given |
| LibXdc.PageCacheFetchTrampoline | src/lib.rs:56-70 | on a hit the flag is set and the stored page buffer is returned; on a miss the flag is cleared and null is returned |
| LibXdc.LibXDC.New | src/lib.rs:93-115 | the session is assembled with a fresh all-zero bitmap of `bitmap_size` bytes; the call panics exactly when engine initialisation fails, and then unwinding drops the session, passing its still-null handle to `libxdc_free`; otherwise the session is live, and its engine got the flattened filters, that bitmap and no decode requests yet |
| LibXdc.LibXDC.Decode | src/lib.rs:156-164 | panics unless the data is non-empty and ends with `PT_TRACE_END` (0x55), and then neither the engine nor the bitmap changes; otherwise the engine gets the data with length `len - 1`, so the sentinel is not counted, and the result is the classification of the code the engine answers after its earlier requests |
| LibXdc.LibXDC.Drop | src/lib.rs:83-88 | the handle, null or not, is passed to `libxdc_free` and `wrapped` becomes null; a live engine is freed with its requests unchanged |

## Left out

- The libxdc engine is foreign C. Its decoding, bitmap updates and return codes are left out and replaced by an oracle chosen by the caller. That oracle answers whether initialisation succeeds and which code each decode returns. A code may depend on the current request and on every earlier one, which stands for the engine's state between calls. Also left out: the bitmap reset, the hash, the page-fault address, the trace-cache reset and the tracing toggles (src/lib.rs:116-131, 165-174).
- The `set_bb_callback`, `set_edge_callback` and `set_ip_callback` methods and their trampolines (src/lib.rs:32-55, 132-155) are left out. Each one hands the engine a pointer to a local closure that is dropped on return, which Dafny's memory model cannot express.
- `new` gives the engine a pointer to `out.page_cache_fetch` and then moves `out` (src/lib.rs:103, 114). The model keeps the provider in place, so that dangling pointer is not modelled.
- The fetch provider is generic in the source. The model instantiates it with the one provider the repository passes, a lookup in the page cache (src/bin/tester.rs:56-59).
- The file read and the goblin parse (src/elf_executable_page_cache.rs:24-25) are I/O and an external library. They are replaced by an `ElfFile` record holding the file bytes and the parser's verdict. For an ELF, that verdict is its word size and its program headers.
- ElfPages.Relocate does not model the overflow panic of a debug build. It wraps modulo 2^64, as a release build does (src/elf_executable_page_cache.rs:73).
- The 32-bit default base 0x56555000 (src/elf_executable_page_cache.rs:39) is unreachable, because 32-bit images panic earlier (line 27). It is kept as a constant only.
- ElfPageCache.PageDataFromSlice requires a slice of exactly 0x1000 bytes; the source asserts this instead. Its only caller passes `chunks_exact` pieces, which CollectPagesWhole proves are always that long.
- In the source, the order of the pages of one segment follows `HashMap` iteration and is not specified. The model takes chunk order. The keys within a segment are pairwise distinct (SegmentKeysDistinct). SegmentOrderImmaterial proves that any other order builds the same map.
- `get_release_version`, the commented-out `decode_with_callback` and the placeholder test (src/lib.rs:11-30, 178-185) are left out. So is the command-line code of the tester, except the sentinel append (src/bin/tester.rs:71-74).
- `decoder_result_t` and its enumerator values come from the bindings crate, which is not part of this model. The model takes them as an unsigned 32-bit code with the values 0 to 4, as the `match` in `try_from` implies (src/decoder_result.rs:17-22).
- Page keys are not rounded to a page boundary. This follows the code: nothing in src/elf_executable_page_cache.rs rounds them. AlignedKeys and UnalignedSegmentGivesUnalignedKey state when keys are aligned.
- The engine's reads of page buffers through the fetch callback, and any writes it makes through them, are not modelled. The oracle's answer does not depend on page contents.
- LibXDC.New records that a failed initialisation drops the session and passes a null handle to `libxdc_free` (src/lib.rs:97-101, 111, 83-88). What libxdc does with a null handle is not part of this model.
