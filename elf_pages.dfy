/**
 * The page pipeline of `ElfExecutablePageCache::executable_page_data_for_elf`, as pure
 * functions: header selection, zero-extension, chunking into whole pages, relocation and the
 * map build in which later entries win.
 *
 * The file read and the ELF parse are replaced by an input record (`ElfFile`): the file's bytes
 * and what the parser reports about them.
 */
module ElfPages {
  import opened Common

  const PAGE_SIZE: nat := 0x1000

  /** `PT_LOAD` from the ELF program header types. */
  const PT_LOAD: U32 := 1

  /** `PF_X`, the executable bit of `p_flags`. */
  const PF_X: bv32 := 1

  /** Default runtime base of a 64-bit image when the caller gives none. */
  const DEFAULT_MAPPED_BASE_64: U64 := 0x0000_5555_5555_4000

  /** Default runtime base of a 32-bit image; never used, since 32-bit images abort earlier. */
  const DEFAULT_MAPPED_BASE_32: U64 := 0x5655_5000

  /** A half-open range `start..end` of file offsets or virtual addresses (`usize`). */
  datatype Range = Range(start: U64, end: U64) {
    /** Rust's `Range::len`: zero when the range is empty or reversed. */
    function Len(): nat
    {
      if start <= end then end - start else 0
    }
  }

  /** The parts of one program header the cache uses. */
  datatype ProgramHeader = ProgramHeader(pType: U32, flags: bv32, fileRange: Range, vmRange: Range) {
    /** `is_executable()`: the `PF_X` bit is set. */
    predicate IsExecutable()
    {
      flags & PF_X != 0
    }
  }

  /** What `Object::parse` makes of the file. */
  datatype Object =
    | Elf(is64: bool, programHeaders: seq<ProgramHeader>)
    | OtherObject
    | Unparseable

  /** The executable's bytes together with their parse. */
  datatype ElfFile = ElfFile(data: seq<byte>, parsed: Object)

  /** Why construction fails. */
  datatype BuildError =
    | ParseError
    | UnknownObjectType
    | Not64Bit
    | NoLoadSegment
    | FileRangeExceedsVmRange(header: nat)
    | FileRangeOutOfBounds(header: nat)
  {
    /** The source aborts on these (`assert!`, `expect`, slice indexing) instead of returning `Err`. */
    predicate IsPanic()
    {
      !(ParseError? || UnknownObjectType?)
    }
  }

  /** The constructed cache as a value: the page map and the runtime base it was relocated to. */
  datatype PageCacheImage = PageCacheImage(pages: map<U64, seq<byte>>, mappedBase: U64)

  /** One (address, page bytes) pair as the pipeline produces it. */
  type PageEntry = (U64, seq<byte>)

  /** A header contributes pages when it is a `PT_LOAD` with the executable flag. */
  predicate Contributes(h: ProgramHeader)
  {
    h.pType == PT_LOAD && h.IsExecutable()
  }

  /**
   * The checks a contributing header must pass before its bytes are copied: the file range is no
   * longer than the memory range (`assert!`), and slicing the file by it does not panic.
   */
  predicate SegmentWellFormed(h: ProgramHeader, dataLen: nat)
  {
    && h.fileRange.Len() <= h.vmRange.Len()
    && h.fileRange.start <= h.fileRange.end <= dataLen
  }

  /** `Vec::resize(n, 0)` on a vector no longer than `n`: pad with zero bytes. */
  function ZeroExtend(s: seq<byte>, n: nat): (r: seq<byte>)
    requires |s| <= n
    ensures |r| == n && r[..|s|] == s
    ensures forall k | |s| <= k < n :: r[k] == 0
  {
    s + seq(n - |s|, _ => 0)
  }

  /**
   * `chunks_exact(PAGE_SIZE)`: the whole pages of `s`, in order; a trailing partial page is
   * dropped.
   */
  function Chunks(s: seq<byte>): (r: seq<seq<byte>>)
    ensures |r| == |s| / PAGE_SIZE
    decreases |s|
  {
    if |s| < PAGE_SIZE then [] else [s[..PAGE_SIZE]] + Chunks(s[PAGE_SIZE..])
  }

  /** Chunk `i` is bytes `[i * PAGE_SIZE, (i + 1) * PAGE_SIZE)` of the input. */
  lemma {:induction false} ChunksAt(s: seq<byte>, i: nat)
    requires i < |Chunks(s)|
    ensures (i + 1) * PAGE_SIZE <= |s|
    ensures Chunks(s)[i] == s[i * PAGE_SIZE..(i + 1) * PAGE_SIZE]
    decreases |s|
  {
    if i > 0 {
      ChunksAt(s[PAGE_SIZE..], i - 1);
      var lo, hi := (i - 1) * PAGE_SIZE, i * PAGE_SIZE;
      assert lo + PAGE_SIZE == hi && hi + PAGE_SIZE == (i + 1) * PAGE_SIZE;
      assert s[PAGE_SIZE..][lo..hi] == s[PAGE_SIZE + lo..PAGE_SIZE + hi];
    }
  }

  /** Number of whole pages a segment's memory range holds. */
  function PageCount(h: ProgramHeader): nat
  {
    h.vmRange.Len() / PAGE_SIZE
  }

  /** `cur_data`: the segment's file bytes, zero-extended to its in-memory length. */
  function SegmentBytes(h: ProgramHeader, data: seq<byte>): (r: seq<byte>)
    requires SegmentWellFormed(h, |data|)
    ensures |r| == h.vmRange.Len()
  {
    ZeroExtend(data[h.fileRange.start..h.fileRange.end], h.vmRange.Len())
  }

  /** The link-time address of page `i` of a segment: `vm_start + i * PAGE_SIZE`. */
  function PageAddress(h: ProgramHeader, i: nat): (a: U64)
    requires i < PageCount(h)
    ensures a + PAGE_SIZE <= h.vmRange.end
  {
    h.vmRange.start + i * PAGE_SIZE
  }

  /** The (link-time address, page) pairs of one segment, in chunk order. */
  function SegmentPages(h: ProgramHeader, data: seq<byte>): (r: seq<PageEntry>)
    requires SegmentWellFormed(h, |data|)
    ensures |r| == PageCount(h)
    ensures forall i | 0 <= i < |r| :: r[i].0 == PageAddress(h, i) && |r[i].1| == PAGE_SIZE
  {
    var chunks := Chunks(SegmentBytes(h, data));
    assert forall i | 0 <= i < |chunks| :: |chunks[i]| == PAGE_SIZE by {
      forall i | 0 <= i < |chunks| ensures |chunks[i]| == PAGE_SIZE {
        ChunksAt(SegmentBytes(h, data), i);
      }
    }
    seq(|chunks|, i requires 0 <= i < |chunks| => (PageAddress(h, i), chunks[i]))
  }

  /**
   * The pages of headers `j..` in header order (`filter_map` then `flatten`), or the error of the
   * first contributing header whose checks fail.
   */
  function CollectPages(hs: seq<ProgramHeader>, data: seq<byte>, j: nat): Result<seq<PageEntry>, BuildError>
    requires j <= |hs|
    decreases |hs| - j
  {
    if j == |hs| then Ok([])
    else if !Contributes(hs[j]) then CollectPages(hs, data, j + 1)
    else if hs[j].fileRange.Len() > hs[j].vmRange.Len() then Err(FileRangeExceedsVmRange(j))
    else if !(hs[j].fileRange.start <= hs[j].fileRange.end <= |data|) then Err(FileRangeOutOfBounds(j))
    else
      match CollectPages(hs, data, j + 1)
      case Err(e) => Err(e)
      case Ok(rest) => Ok(SegmentPages(hs[j], data) + rest)
  }

  /** Index of the first `PT_LOAD` header at or after `j`, if any. */
  function FirstLoadFrom(hs: seq<ProgramHeader>, j: nat): (r: Option<nat>)
    requires j <= |hs|
    ensures r.Some? ==> j <= r.value < |hs| && hs[r.value].pType == PT_LOAD
    ensures r.Some? ==> forall k | j <= k < r.value :: hs[k].pType != PT_LOAD
    ensures r.None? ==> forall k | j <= k < |hs| :: hs[k].pType != PT_LOAD
    decreases |hs| - j
  {
    if j == |hs| then None
    else if hs[j].pType == PT_LOAD then Some(j)
    else FirstLoadFrom(hs, j + 1)
  }

  /**
   * `elf_mapped_base`: the start of the memory range of the first `PT_LOAD` header, executable
   * or not.
   */
  function ElfMappedBase(hs: seq<ProgramHeader>): Option<U64>
  {
    match FirstLoadFrom(hs, 0)
    case None => None
    case Some(j) => Some(hs[j].vmRange.start)
  }

  /** `new_mapped_base`: the caller's base, or the default for the image's word size. */
  function ChooseMappedBase(mappedBase: Option<U64>, is64: bool): U64
  {
    match mappedBase
    case Some(b) => b
    case None => if is64 then DEFAULT_MAPPED_BASE_64 else DEFAULT_MAPPED_BASE_32
  }

  /** `addr - elf_mapped_base + new_mapped_base` in wrapping `u64` arithmetic. */
  function Relocate(addr: U64, elfMappedBase: U64, mappedBase: U64): U64
  {
    (addr - elfMappedBase + mappedBase) % TWO_TO_THE_64
  }

  /** Relocates the address of every entry and keeps its page. */
  function RelocateAll(es: seq<PageEntry>, elfMappedBase: U64, mappedBase: U64): seq<PageEntry>
  {
    seq(|es|, i requires 0 <= i < |es| => (Relocate(es[i].0, elfMappedBase, mappedBase), es[i].1))
  }

  /** `collect::<HashMap<_, _>>()`: insert the entries left to right, so a later key overwrites. */
  function BuildMap<K, V>(es: seq<(K, V)>): map<K, V>
  {
    if es == [] then map[]
    else BuildMap(es[..|es| - 1])[es[|es| - 1].0 := es[|es| - 1].1]
  }

  /**
   * Every step of construction up to the map build: the relocated entries in insertion order and
   * the chosen runtime base, or the reason construction fails.
   */
  function PagePlan(file: ElfFile, mappedBase: Option<U64>): Result<(seq<PageEntry>, U64), BuildError>
  {
    match file.parsed
    case Unparseable => Err(ParseError)
    case OtherObject => Err(UnknownObjectType)
    case Elf(is64, hs) =>
      if !is64 then Err(Not64Bit)
      else
        var base := ChooseMappedBase(mappedBase, is64);
        match ElfMappedBase(hs)
        case None => Err(NoLoadSegment)
        case Some(elfBase) =>
          match CollectPages(hs, file.data, 0)
          case Err(e) => Err(e)
          case Ok(es) => Ok((RelocateAll(es, elfBase, base), base))
  }

  /** `executable_page_data_for_elf` as a value: the page map and base, or the failure. */
  function ExecutablePageData(file: ElfFile, mappedBase: Option<U64>): Result<PageCacheImage, BuildError>
  {
    match PagePlan(file, mappedBase)
    case Err(e) => Err(e)
    case Ok(plan) => Ok(PageCacheImage(BuildMap(plan.0), plan.1))
  }
}
