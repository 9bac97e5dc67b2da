/**
 * What `executable_page_data_for_elf` guarantees about the page map it builds: which headers
 * contribute, how many pages each yields, what bytes each page holds, where each page is keyed,
 * which segment wins a shared key, when construction fails, and how the keys move with the base.
 */
module ElfPagesProperties {
  import opened Common
  import opened ElfPages

  /* ---------- Wrapping u64 arithmetic ---------- */

  /** Adds `d` to a `u64` with wrap-around. */
  function Shift(k: U64, d: int): U64
  {
    (k + d) % TWO_TO_THE_64
  }

  /** Two integers less than 2^64 apart with the same residue are equal. */
  lemma ModEqualClose(x: int, y: int)
    requires x % TWO_TO_THE_64 == y % TWO_TO_THE_64
    requires -TWO_TO_THE_64 < x - y < TWO_TO_THE_64
    ensures x == y
  {
    var qx, qy := x / TWO_TO_THE_64, y / TWO_TO_THE_64;
    assert x == qx * TWO_TO_THE_64 + x % TWO_TO_THE_64;
    assert y == qy * TWO_TO_THE_64 + y % TWO_TO_THE_64;
    assert x - y == (qx - qy) * TWO_TO_THE_64;
  }

  /** Reducing before adding does not change the wrapped sum. */
  lemma ModThenAdd(x: int, d: int)
    ensures (x % TWO_TO_THE_64 + d) % TWO_TO_THE_64 == (x + d) % TWO_TO_THE_64
  {
    var q := x / TWO_TO_THE_64;
    assert x == q * TWO_TO_THE_64 + x % TWO_TO_THE_64;
    ModAddMultiple(x % TWO_TO_THE_64 + d, q);
  }

  /** Adding a multiple of 2^64 does not change the residue. */
  lemma ModAddMultiple(x: int, q: int)
    ensures (x + q * TWO_TO_THE_64) % TWO_TO_THE_64 == x % TWO_TO_THE_64
  {
    var r := x % TWO_TO_THE_64;
    var p := x / TWO_TO_THE_64;
    assert x == p * TWO_TO_THE_64 + r;
    assert x + q * TWO_TO_THE_64 == (p + q) * TWO_TO_THE_64 + r;
  }

  /** Relocation with fixed bases is injective: distinct link-time addresses get distinct keys. */
  lemma RelocateInjective(a1: U64, a2: U64, elfBase: U64, base: U64)
    requires a1 != a2
    ensures Relocate(a1, elfBase, base) != Relocate(a2, elfBase, base)
  {
    if Relocate(a1, elfBase, base) == Relocate(a2, elfBase, base) {
      ModEqualClose(a1 - elfBase + base, a2 - elfBase + base);
    }
  }

  /** Relocating to another base moves the key by the difference of the bases, wrapping. */
  lemma RelocateShift(a: U64, elfBase: U64, b1: U64, b2: U64)
    ensures Relocate(a, elfBase, b2) == Shift(Relocate(a, elfBase, b1), b2 - b1)
  {
    ModThenAdd(a - elfBase + b1, b2 - b1);
  }

  /** `Shift` is injective. */
  lemma ShiftInjective(k1: U64, k2: U64, d: int)
    requires Shift(k1, d) == Shift(k2, d)
    ensures k1 == k2
  {
    ModEqualClose(k1 + d, k2 + d);
  }

  /** Shifting back undoes a shift. */
  lemma ShiftInverse(k: U64, d: int)
    ensures Shift(Shift(k, d), -d) == k
  {
    ModThenAdd(k + d, -d);
  }

  /* ---------- The map build: later entries win ---------- */

  /** A key is in the built map exactly when some entry carries it. */
  lemma {:induction false} BuildMapKeys<K, V>(es: seq<(K, V)>, k: K)
    ensures k in BuildMap(es) <==> exists n | 0 <= n < |es| :: es[n].0 == k
  {
    if es != [] {
      var init := es[..|es| - 1];
      BuildMapKeys(init, k);
      if k in BuildMap(init) {
        var n :| 0 <= n < |init| && init[n].0 == k;
        assert es[n].0 == k;
      }
    }
  }

  /** An entry whose key no later entry repeats determines that key's value. */
  lemma {:induction false} BuildMapLastWins<K, V>(es: seq<(K, V)>, n: nat)
    requires n < |es|
    requires forall m | n < m < |es| :: es[m].0 != es[n].0
    ensures es[n].0 in BuildMap(es) && BuildMap(es)[es[n].0] == es[n].1
  {
    if n < |es| - 1 {
      var init := es[..|es| - 1];
      assert forall m | n < m < |init| :: init[m] == es[m];
      BuildMapLastWins(init, n);
    }
  }

  /** Building from a concatenation is the right-biased union of the two maps. */
  lemma {:induction false} BuildMapAppend<K, V>(a: seq<(K, V)>, b: seq<(K, V)>)
    ensures BuildMap(a + b) == BuildMap(a) + BuildMap(b)
    decreases |b|
  {
    if b != [] {
      var binit := b[..|b| - 1];
      var last := b[|b| - 1];
      assert a + b != [] && (a + b)[|a + b| - 1] == last;
      assert (a + b)[..|a + b| - 1] == a + binit;
      assert BuildMap(a + b) == BuildMap(a + binit)[last.0 := last.1];
      BuildMapAppend(a, binit);
      assert BuildMap(b) == BuildMap(binit)[last.0 := last.1];
      assert (BuildMap(a) + BuildMap(binit))[last.0 := last.1] == BuildMap(a) + BuildMap(binit)[last.0 := last.1];
    } else {
      assert a + b == a;
    }
  }

  /**
   * Entries with pairwise distinct keys build the same map in any order: two such sequences
   * holding the same entries give equal maps.
   */
  lemma BuildMapReorder<K, V>(es: seq<(K, V)>, fs: seq<(K, V)>)
    requires forall m, n | 0 <= m < n < |es| :: es[m].0 != es[n].0
    requires forall m, n | 0 <= m < n < |fs| :: fs[m].0 != fs[n].0
    requires forall e :: e in es <==> e in fs
    ensures BuildMap(es) == BuildMap(fs)
  {
    forall k | k in BuildMap(es) ensures k in BuildMap(fs) && BuildMap(fs)[k] == BuildMap(es)[k] {
      BuildMapKeys(es, k);
      var n :| 0 <= n < |es| && es[n].0 == k;
      BuildMapLastWins(es, n);
      assert es[n] in fs;
      var m :| 0 <= m < |fs| && fs[m] == es[n];
      BuildMapLastWins(fs, m);
    }
    forall k | k in BuildMap(fs) ensures k in BuildMap(es) {
      BuildMapKeys(fs, k);
      var m :| 0 <= m < |fs| && fs[m].0 == k;
      assert fs[m] in es;
      BuildMapKeys(es, k);
    }
  }

  /** Every address shifted by `d`, pages kept. */
  function ShiftAll(es: seq<PageEntry>, d: int): seq<PageEntry>
  {
    seq(|es|, i requires 0 <= i < |es| => (Shift(es[i].0, d), es[i].1))
  }

  /** Shifting every key before the build shifts the keys of the built map and keeps the values. */
  lemma {:induction false} BuildMapShift(es: seq<PageEntry>, d: int, k: U64)
    ensures k in BuildMap(es) <==> Shift(k, d) in BuildMap(ShiftAll(es, d))
    ensures k in BuildMap(es) ==> BuildMap(ShiftAll(es, d))[Shift(k, d)] == BuildMap(es)[k]
  {
    if es != [] {
      var init := es[..|es| - 1];
      assert ShiftAll(es, d)[..|es| - 1] == ShiftAll(init, d);
      BuildMapShift(init, d, k);
      var last := es[|es| - 1];
      if Shift(k, d) == Shift(last.0, d) {
        ShiftInjective(k, last.0, d);
      }
    }
  }

  /* ---------- One segment ---------- */

  /** Bytes of page `i` of a segment: file bytes while they last, zero past the file length. */
  lemma SegmentPageBytes(h: ProgramHeader, data: seq<byte>, i: nat, o: nat)
    requires SegmentWellFormed(h, |data|)
    requires i < PageCount(h) && o < PAGE_SIZE
    ensures SegmentPages(h, data)[i].1[o] ==
      if i * PAGE_SIZE + o < h.fileRange.Len() then data[h.fileRange.start + i * PAGE_SIZE + o] else 0
  {
    ChunksAt(SegmentBytes(h, data), i);
  }

  /** The relocated key of page `i` of a segment. */
  function PageKey(h: ProgramHeader, i: nat, elfBase: U64, base: U64): U64
    requires i < PageCount(h)
  {
    Relocate(PageAddress(h, i), elfBase, base)
  }

  /** Distinct pages of one segment have distinct keys. */
  lemma SegmentKeysDistinct(h: ProgramHeader, i1: nat, i2: nat, elfBase: U64, base: U64)
    requires i1 < PageCount(h) && i2 < PageCount(h) && i1 != i2
    ensures PageKey(h, i1, elfBase, base) != PageKey(h, i2, elfBase, base)
  {
    assert i1 * PAGE_SIZE != i2 * PAGE_SIZE;
    RelocateInjective(PageAddress(h, i1), PageAddress(h, i2), elfBase, base);
  }

  /** The relocated page map of one segment. */
  function SegmentMap(h: ProgramHeader, data: seq<byte>, elfBase: U64, base: U64): map<U64, seq<byte>>
    requires SegmentWellFormed(h, |data|)
  {
    BuildMap(RelocateAll(SegmentPages(h, data), elfBase, base))
  }

  /** Page `i` of a segment sits under its key in the segment's map. */
  lemma SegmentMapAt(h: ProgramHeader, data: seq<byte>, elfBase: U64, base: U64, i: nat)
    requires SegmentWellFormed(h, |data|) && i < PageCount(h)
    ensures PageKey(h, i, elfBase, base) in SegmentMap(h, data, elfBase, base)
    ensures SegmentMap(h, data, elfBase, base)[PageKey(h, i, elfBase, base)] == SegmentPages(h, data)[i].1
  {
    var es := RelocateAll(SegmentPages(h, data), elfBase, base);
    forall m | i < m < |es| ensures es[m].0 != es[i].0 {
      SegmentKeysDistinct(h, i, m, elfBase, base);
    }
    BuildMapLastWins(es, i);
  }

  /** Every key of a segment's map is the key of one of its pages. */
  lemma SegmentMapKeys(h: ProgramHeader, data: seq<byte>, elfBase: U64, base: U64, k: U64)
    requires SegmentWellFormed(h, |data|)
    ensures k in SegmentMap(h, data, elfBase, base) <==>
      exists i | 0 <= i < PageCount(h) :: PageKey(h, i, elfBase, base) == k
  {
    var es := RelocateAll(SegmentPages(h, data), elfBase, base);
    BuildMapKeys(es, k);
    if k in SegmentMap(h, data, elfBase, base) {
      var n :| 0 <= n < |es| && es[n].0 == k;
      assert PageKey(h, n, elfBase, base) == k;
    }
    if exists i | 0 <= i < PageCount(h) :: PageKey(h, i, elfBase, base) == k {
      var i :| 0 <= i < PageCount(h) && PageKey(h, i, elfBase, base) == k;
      assert es[i].0 == k;
    }
  }

  /**
   * The per-segment `HashMap` hands its pages to `flatten` in an unspecified order. Any order of
   * one segment's relocated pages, each once, placed among any other entries, builds the same map
   * as chunk order.
   */
  lemma SegmentOrderImmaterial(h: ProgramHeader, data: seq<byte>, elfBase: U64, base: U64,
                               fs: seq<PageEntry>, pre: seq<PageEntry>, post: seq<PageEntry>)
    requires SegmentWellFormed(h, |data|)
    requires forall m, n | 0 <= m < n < |fs| :: fs[m].0 != fs[n].0
    requires forall e :: e in fs <==> e in RelocateAll(SegmentPages(h, data), elfBase, base)
    ensures BuildMap(pre + fs + post) == BuildMap(pre + RelocateAll(SegmentPages(h, data), elfBase, base) + post)
  {
    var es := RelocateAll(SegmentPages(h, data), elfBase, base);
    forall m, n | 0 <= m < n < |es| ensures es[m].0 != es[n].0 {
      SegmentKeysDistinct(h, m, n, elfBase, base);
    }
    BuildMapReorder(fs, es);
    BuildMapAppend(pre + fs, post);
    BuildMapAppend(pre, fs);
    BuildMapAppend(pre + es, post);
    BuildMapAppend(pre, es);
  }

  /* ---------- All segments ---------- */

  /** Page `i` of header `j` contributes and is keyed at `k`. */
  predicate PageAt(hs: seq<ProgramHeader>, j: int, i: int, k: U64, elfBase: U64, base: U64)
  {
    && 0 <= j < |hs|
    && Contributes(hs[j])
    && 0 <= i < PageCount(hs[j])
    && PageKey(hs[j], i, elfBase, base) == k
  }

  /** The map built from the pages of headers `j..`. */
  function CollectedMap(hs: seq<ProgramHeader>, data: seq<byte>, j: nat, elfBase: U64, base: U64): map<U64, seq<byte>>
    requires j <= |hs| && CollectPages(hs, data, j).Ok?
  {
    BuildMap(RelocateAll(CollectPages(hs, data, j).value, elfBase, base))
  }

  /** The map of headers `j..` is that of header `j` overwritten by the map of the headers after it. */
  lemma CollectedMapStep(hs: seq<ProgramHeader>, data: seq<byte>, j: nat, elfBase: U64, base: U64)
    requires j < |hs| && CollectPages(hs, data, j).Ok?
    ensures CollectPages(hs, data, j + 1).Ok?
    ensures Contributes(hs[j]) ==> SegmentWellFormed(hs[j], |data|)
    ensures Contributes(hs[j]) ==>
      CollectedMap(hs, data, j, elfBase, base)
        == SegmentMap(hs[j], data, elfBase, base) + CollectedMap(hs, data, j + 1, elfBase, base)
    ensures !Contributes(hs[j]) ==>
      CollectedMap(hs, data, j, elfBase, base) == CollectedMap(hs, data, j + 1, elfBase, base)
  {
    if Contributes(hs[j]) {
      var seg := SegmentPages(hs[j], data);
      var rest := CollectPages(hs, data, j + 1).value;
      assert RelocateAll(seg + rest, elfBase, base)
        == RelocateAll(seg, elfBase, base) + RelocateAll(rest, elfBase, base);
      BuildMapAppend(RelocateAll(seg, elfBase, base), RelocateAll(rest, elfBase, base));
    }
  }

  /** A key is in the map of headers `j..` exactly when a contributing page from them is keyed there. */
  lemma {:induction false} CollectedKeys(hs: seq<ProgramHeader>, data: seq<byte>, j: nat, elfBase: U64, base: U64, k: U64)
    requires j <= |hs| && CollectPages(hs, data, j).Ok?
    ensures k in CollectedMap(hs, data, j, elfBase, base) <==>
      exists j', i :: j <= j' && PageAt(hs, j', i, k, elfBase, base)
    decreases |hs| - j
  {
    if j < |hs| {
      CollectedMapStep(hs, data, j, elfBase, base);
      CollectedKeys(hs, data, j + 1, elfBase, base, k);
      if exists j', i :: j <= j' && PageAt(hs, j', i, k, elfBase, base) {
        var j', i :| j <= j' && PageAt(hs, j', i, k, elfBase, base);
        if j' == j {
          SegmentMapAt(hs[j], data, elfBase, base, i);
        }
      }
      if Contributes(hs[j]) {
        SegmentMapKeys(hs[j], data, elfBase, base, k);
        if k in SegmentMap(hs[j], data, elfBase, base) {
          var i :| 0 <= i < PageCount(hs[j]) && PageKey(hs[j], i, elfBase, base) == k;
          assert PageAt(hs, j, i, k, elfBase, base);
        }
      }
    }
  }

  /**
   * A page whose key no later contributing header reuses is what the map of headers `j..`
   * holds under that key.
   */
  lemma {:induction false} CollectedLaterWins(hs: seq<ProgramHeader>, data: seq<byte>, j: nat, j0: nat, i: nat,
                                               k: U64, elfBase: U64, base: U64)
    requires j <= j0 && j <= |hs| && CollectPages(hs, data, j).Ok?
    requires PageAt(hs, j0, i, k, elfBase, base)
    requires forall j', i' | j0 < j' :: !PageAt(hs, j', i', k, elfBase, base)
    ensures SegmentWellFormed(hs[j0], |data|)
    ensures k in CollectedMap(hs, data, j, elfBase, base)
    ensures CollectedMap(hs, data, j, elfBase, base)[k] == SegmentPages(hs[j0], data)[i].1
    decreases j0 - j
  {
    CollectedMapStep(hs, data, j, elfBase, base);
    if j == j0 {
      CollectedKeys(hs, data, j + 1, elfBase, base, k);
      SegmentMapAt(hs[j], data, elfBase, base, i);
    } else {
      CollectedLaterWins(hs, data, j + 1, j0, i, k, elfBase, base);
    }
  }

  /** Construction of the pages of headers `j..` succeeds exactly when every contributing header passes its checks. */
  lemma {:induction false} CollectPagesOk(hs: seq<ProgramHeader>, data: seq<byte>, j: nat)
    requires j <= |hs|
    ensures CollectPages(hs, data, j).Ok? <==>
      forall k | j <= k < |hs| :: Contributes(hs[k]) ==> SegmentWellFormed(hs[k], |data|)
    decreases |hs| - j
  {
    if j < |hs| {
      CollectPagesOk(hs, data, j + 1);
    }
  }

  /**
   * A failure names the first contributing header whose checks fail, and says which check:
   * the length assertion is tried before the slice bounds.
   */
  lemma {:induction false} CollectPagesFirstFailure(hs: seq<ProgramHeader>, data: seq<byte>, j: nat)
    requires j <= |hs| && CollectPages(hs, data, j).Err?
    ensures var e := CollectPages(hs, data, j).error;
      && (e.FileRangeExceedsVmRange? || e.FileRangeOutOfBounds?)
      && j <= e.header < |hs|
      && Contributes(hs[e.header])
      && !SegmentWellFormed(hs[e.header], |data|)
      && (e.FileRangeExceedsVmRange? <==> hs[e.header].fileRange.Len() > hs[e.header].vmRange.Len())
      && forall k | j <= k < e.header :: Contributes(hs[k]) ==> SegmentWellFormed(hs[k], |data|)
    decreases |hs| - j
  {
    if Contributes(hs[j]) && SegmentWellFormed(hs[j], |data|) {
      CollectPagesFirstFailure(hs, data, j + 1);
    } else if !Contributes(hs[j]) {
      CollectPagesFirstFailure(hs, data, j + 1);
    }
  }

  /** Every collected entry carries a whole page. */
  lemma {:induction false} CollectPagesWhole(hs: seq<ProgramHeader>, data: seq<byte>, j: nat)
    requires j <= |hs| && CollectPages(hs, data, j).Ok?
    ensures forall n | 0 <= n < |CollectPages(hs, data, j).value| :: |CollectPages(hs, data, j).value[n].1| == PAGE_SIZE
    decreases |hs| - j
  {
    if j < |hs| {
      CollectPagesWhole(hs, data, j + 1);
    }
  }

  /** The planned entries, in insertion order, each carry a whole page. */
  lemma PagePlanWhole(file: ElfFile, mappedBase: Option<U64>)
    requires PagePlan(file, mappedBase).Ok?
    ensures forall n | 0 <= n < |PagePlan(file, mappedBase).value.0| :: |PagePlan(file, mappedBase).value.0[n].1| == PAGE_SIZE
  {
    CollectPagesWhole(file.parsed.programHeaders, file.data, 0);
  }

  /* ---------- The whole construction ---------- */

  /** The image built for a 64-bit ELF with these headers. */
  function Image(data: seq<byte>, hs: seq<ProgramHeader>, mappedBase: Option<U64>): Result<PageCacheImage, BuildError>
  {
    ExecutablePageData(ElfFile(data, Elf(true, hs)), mappedBase)
  }

  /** The map of the image is the collected map of all headers, relocated from the first load segment to the chosen base. */
  lemma ImageIsCollectedMap(data: seq<byte>, hs: seq<ProgramHeader>, mappedBase: Option<U64>)
    requires Image(data, hs, mappedBase).Ok?
    ensures ElfMappedBase(hs).Some? && CollectPages(hs, data, 0).Ok?
    ensures Image(data, hs, mappedBase).value.mappedBase == ChooseMappedBase(mappedBase, true)
    ensures Image(data, hs, mappedBase).value.pages
      == CollectedMap(hs, data, 0, ElfMappedBase(hs).value, ChooseMappedBase(mappedBase, true))
  {
  }

  /**
   * Construction returns `Err` for an unparseable or non-ELF file, and panics for a 32-bit ELF,
   * for an ELF without a `PT_LOAD` header, and at the first contributing header whose file range
   * is longer than its memory range or lies outside the file. Otherwise it succeeds.
   */
  lemma ExecutablePageDataOutcome(file: ElfFile, mappedBase: Option<U64>)
    ensures file.parsed.Unparseable? ==> ExecutablePageData(file, mappedBase) == Err(ParseError)
    ensures file.parsed.OtherObject? ==> ExecutablePageData(file, mappedBase) == Err(UnknownObjectType)
    ensures file.parsed.Elf? && !file.parsed.is64 ==> ExecutablePageData(file, mappedBase) == Err(Not64Bit)
    ensures file.parsed.Elf? && file.parsed.is64
              && (forall k | 0 <= k < |file.parsed.programHeaders| :: file.parsed.programHeaders[k].pType != PT_LOAD)
            ==> ExecutablePageData(file, mappedBase) == Err(NoLoadSegment)
    ensures ExecutablePageData(file, mappedBase).Err? ==>
              (ExecutablePageData(file, mappedBase).error.IsPanic() <==> file.parsed.Elf?)
    ensures ExecutablePageData(file, mappedBase).Ok? <==>
              && file.parsed.Elf? && file.parsed.is64
              && ElfMappedBase(file.parsed.programHeaders).Some?
              && forall k | 0 <= k < |file.parsed.programHeaders| ::
                   (Contributes(file.parsed.programHeaders[k])
                    ==> SegmentWellFormed(file.parsed.programHeaders[k], |file.data|))
  {
    if file.parsed.Elf? {
      CollectPagesOk(file.parsed.programHeaders, file.data, 0);
      if CollectPages(file.parsed.programHeaders, file.data, 0).Err? {
        CollectPagesFirstFailure(file.parsed.programHeaders, file.data, 0);
      }
    }
  }

  /** The stored base is the caller's, or 0x0000555555554000 when none is given. */
  lemma MappedBaseChosen(file: ElfFile, mappedBase: Option<U64>)
    requires ExecutablePageData(file, mappedBase).Ok?
    ensures ExecutablePageData(file, mappedBase).value.mappedBase ==
      if mappedBase.Some? then mappedBase.value else 0x0000_5555_5555_4000
  {
  }

  /**
   * The keys of the cache are exactly the relocated addresses of the whole pages of the
   * executable `PT_LOAD` segments: `vm_start + i * 0x1000 - elf_mapped_base + mapped_base`.
   */
  lemma PageCacheKeys(data: seq<byte>, hs: seq<ProgramHeader>, mappedBase: Option<U64>, k: U64)
    requires Image(data, hs, mappedBase).Ok? && ElfMappedBase(hs).Some?
    ensures k in Image(data, hs, mappedBase).value.pages <==>
      exists j, i :: PageAt(hs, j, i, k, ElfMappedBase(hs).value, Image(data, hs, mappedBase).value.mappedBase)
  {
    ImageIsCollectedMap(data, hs, mappedBase);
    CollectedKeys(hs, data, 0, ElfMappedBase(hs).value, ChooseMappedBase(mappedBase, true), k);
  }

  /**
   * Under the key of page `i` of header `j`, when no later header has a page with that key, the
   * cache holds that page: the segment's file bytes at that offset, and zero past the file length.
   */
  lemma PageCacheContents(data: seq<byte>, hs: seq<ProgramHeader>, mappedBase: Option<U64>, j: nat, i: nat, k: U64)
    requires Image(data, hs, mappedBase).Ok? && ElfMappedBase(hs).Some?
    requires PageAt(hs, j, i, k, ElfMappedBase(hs).value, Image(data, hs, mappedBase).value.mappedBase)
    requires forall j', i' | j < j' ::
      !PageAt(hs, j', i', k, ElfMappedBase(hs).value, Image(data, hs, mappedBase).value.mappedBase)
    ensures SegmentWellFormed(hs[j], |data|)
    ensures k in Image(data, hs, mappedBase).value.pages
    ensures Image(data, hs, mappedBase).value.pages[k] == SegmentPages(hs[j], data)[i].1
    ensures forall o | 0 <= o < PAGE_SIZE ::
      Image(data, hs, mappedBase).value.pages[k][o] ==
        if i * PAGE_SIZE + o < hs[j].fileRange.Len() then data[hs[j].fileRange.start + i * PAGE_SIZE + o] else 0
  {
    ImageIsCollectedMap(data, hs, mappedBase);
    CollectedLaterWins(hs, data, 0, j, i, k, ElfMappedBase(hs).value, ChooseMappedBase(mappedBase, true));
    forall o | 0 <= o < PAGE_SIZE
      ensures SegmentPages(hs[j], data)[i].1[o] ==
        if i * PAGE_SIZE + o < hs[j].fileRange.Len() then data[hs[j].fileRange.start + i * PAGE_SIZE + o] else 0
    {
      SegmentPageBytes(hs[j], data, i, o);
    }
  }

  /**
   * Changing only the base: construction fails or succeeds alike, and every key moves by the
   * difference of the bases (wrapping) with its page unchanged.
   */
  lemma RebaseShiftsKeys(file: ElfFile, b1: U64, b2: U64, k: U64)
    ensures ExecutablePageData(file, Some(b1)).Ok? <==> ExecutablePageData(file, Some(b2)).Ok?
    ensures ExecutablePageData(file, Some(b1)).Err? ==>
      ExecutablePageData(file, Some(b1)).error == ExecutablePageData(file, Some(b2)).error
    ensures ExecutablePageData(file, Some(b1)).Ok? ==>
      var p1, p2 := ExecutablePageData(file, Some(b1)).value.pages, ExecutablePageData(file, Some(b2)).value.pages;
      && (k in p1 <==> Shift(k, b2 - b1) in p2)
      && (k in p1 ==> p2[Shift(k, b2 - b1)] == p1[k])
      && (k in p2 <==> Shift(k, b1 - b2) in p1)
  {
    if ExecutablePageData(file, Some(b1)).Ok? {
      var hs := file.parsed.programHeaders;
      var elfBase := ElfMappedBase(hs).value;
      var es := CollectPages(hs, file.data, 0).value;
      var r1, r2 := RelocateAll(es, elfBase, b1), RelocateAll(es, elfBase, b2);
      forall n | 0 <= n < |es| ensures r2[n] == ShiftAll(r1, b2 - b1)[n] {
        RelocateShift(es[n].0, elfBase, b1, b2);
      }
      assert r2 == ShiftAll(r1, b2 - b1);
      BuildMapShift(r1, b2 - b1, k);
      var k1 := Shift(k, b1 - b2);
      BuildMapShift(r1, b2 - b1, k1);
      ShiftInverse(k, b1 - b2);
      assert Shift(k1, b2 - b1) == k;
    }
  }

  /** Aligned segment starts and aligned bases give aligned keys; the code does not round. */
  lemma AlignedKeys(data: seq<byte>, hs: seq<ProgramHeader>, mappedBase: Option<U64>, k: U64)
    requires Image(data, hs, mappedBase).Ok? && ElfMappedBase(hs).Some?
    requires ElfMappedBase(hs).value % PAGE_SIZE == 0
    requires Image(data, hs, mappedBase).value.mappedBase % PAGE_SIZE == 0
    requires forall j | 0 <= j < |hs| :: Contributes(hs[j]) ==> hs[j].vmRange.start % PAGE_SIZE == 0
    requires k in Image(data, hs, mappedBase).value.pages
    ensures k % PAGE_SIZE == 0
  {
    var elfBase, base := ElfMappedBase(hs).value, Image(data, hs, mappedBase).value.mappedBase;
    PageCacheKeys(data, hs, mappedBase, k);
    var j, i :| PageAt(hs, j, i, k, elfBase, base);
    PageAddressAligned(hs[j], i);
    RelocateAligned(PageAddress(hs[j], i), elfBase, base);
  }

  /** Pages of a segment that starts on a page boundary start on page boundaries. */
  lemma PageAddressAligned(h: ProgramHeader, i: nat)
    requires i < PageCount(h) && h.vmRange.start % PAGE_SIZE == 0
    ensures PageAddress(h, i) % PAGE_SIZE == 0
  {
    assert PageAddress(h, i) == h.vmRange.start + i * PAGE_SIZE;
  }

  /** Relocating an aligned address between aligned bases gives an aligned key. */
  lemma RelocateAligned(a: U64, elfBase: U64, base: U64)
    requires a % PAGE_SIZE == 0 && elfBase % PAGE_SIZE == 0 && base % PAGE_SIZE == 0
    ensures Relocate(a, elfBase, base) % PAGE_SIZE == 0
  {
    var x := a - elfBase + base;
    assert x % PAGE_SIZE == 0 by {
      assert a == (a / PAGE_SIZE) * PAGE_SIZE;
      assert elfBase == (elfBase / PAGE_SIZE) * PAGE_SIZE;
      assert base == (base / PAGE_SIZE) * PAGE_SIZE;
      assert x == (a / PAGE_SIZE - elfBase / PAGE_SIZE + base / PAGE_SIZE) * PAGE_SIZE;
    }
    ModPageOfWrapped(x);
  }

  /** Wrapping at 2^64 keeps the offset within a page. */
  lemma ModPageOfWrapped(x: int)
    ensures (x % TWO_TO_THE_64) % PAGE_SIZE == x % PAGE_SIZE
  {
    var q := x / TWO_TO_THE_64;
    assert x == q * TWO_TO_THE_64 + x % TWO_TO_THE_64;
    assert x % TWO_TO_THE_64 == x - (q * 0x10_0000_0000_0000) * PAGE_SIZE;
  }

  /**
   * A contributing segment that starts off a page boundary yields a key off a page boundary even
   * when both bases are aligned.
   */
  lemma UnalignedSegmentGivesUnalignedKey(data: seq<byte>, hs: seq<ProgramHeader>, mappedBase: Option<U64>, j: nat)
    requires Image(data, hs, mappedBase).Ok? && ElfMappedBase(hs).Some?
    requires ElfMappedBase(hs).value % PAGE_SIZE == 0
    requires Image(data, hs, mappedBase).value.mappedBase % PAGE_SIZE == 0
    requires j < |hs| && Contributes(hs[j]) && PageCount(hs[j]) > 0
    requires hs[j].vmRange.start % PAGE_SIZE != 0
    ensures PageKey(hs[j], 0, ElfMappedBase(hs).value, Image(data, hs, mappedBase).value.mappedBase)
      in Image(data, hs, mappedBase).value.pages
    ensures PageKey(hs[j], 0, ElfMappedBase(hs).value, Image(data, hs, mappedBase).value.mappedBase) % PAGE_SIZE != 0
  {
    var elfBase, base := ElfMappedBase(hs).value, Image(data, hs, mappedBase).value.mappedBase;
    var k := PageKey(hs[j], 0, elfBase, base);
    assert PageAt(hs, j, 0, k, elfBase, base);
    PageCacheKeys(data, hs, mappedBase, k);
    RelocateUnaligned(PageAddress(hs[j], 0), elfBase, base);
  }

  /** Relocating an unaligned address between aligned bases gives an unaligned key. */
  lemma RelocateUnaligned(a: U64, elfBase: U64, base: U64)
    requires a % PAGE_SIZE != 0 && elfBase % PAGE_SIZE == 0 && base % PAGE_SIZE == 0
    ensures Relocate(a, elfBase, base) % PAGE_SIZE != 0
  {
    var x := a - elfBase + base;
    assert x % PAGE_SIZE == a % PAGE_SIZE by {
      assert elfBase == (elfBase / PAGE_SIZE) * PAGE_SIZE;
      assert base == (base / PAGE_SIZE) * PAGE_SIZE;
      assert x == a + (base / PAGE_SIZE - elfBase / PAGE_SIZE) * PAGE_SIZE;
    }
    ModPageOfWrapped(x);
  }

  /**
   * One executable load segment of exactly one page at 0x1000, file and memory sizes equal,
   * relocated to 0x555000: the cache holds exactly that page at 0x555000.
   */
  lemma OnePageScenario(data: seq<byte>)
    requires |data| == PAGE_SIZE
    ensures Image(data, [ProgramHeader(PT_LOAD, PF_X, Range(0, 0x1000), Range(0x1000, 0x2000))], Some(0x555000))
      == Ok(PageCacheImage(map[0x555000 := data], 0x555000))
  {
    var h := ProgramHeader(PT_LOAD, PF_X, Range(0, 0x1000), Range(0x1000, 0x2000));
    assert h.IsExecutable();
    var bytes := SegmentBytes(h, data);
    assert bytes == data;
    assert Chunks(bytes) == [data] by {
      assert bytes[..PAGE_SIZE] == data;
      assert |bytes[PAGE_SIZE..]| == 0;
    }
    assert SegmentPages(h, data) == [(0x1000, data)];
    assert Contributes(h) && SegmentWellFormed(h, |data|);
    assert CollectPages([h], data, 1) == Ok([]);
    assert SegmentPages(h, data) + [] == [(0x1000, data)];
    assert CollectPages([h], data, 0) == Ok([(0x1000, data)]);
    assert RelocateAll([(0x1000, data)], 0x1000, 0x555000) == [(0x555000, data)];
    assert BuildMap([(0x555000, data)]) == map[0x555000 := data] by {
      assert [(0x555000, data)][..0] == [];
    }
    assert ElfMappedBase([h]) == Some(0x1000);
    assert PagePlan(ElfFile(data, Elf(true, [h])), Some(0x555000)) == Ok(([(0x555000, data)], 0x555000));
    assert ExecutablePageData(ElfFile(data, Elf(true, [h])), Some(0x555000))
      == Ok(PageCacheImage(BuildMap([(0x555000, data)]), 0x555000));
    assert Image(data, [h], Some(0x555000)) == Ok(PageCacheImage(map[0x555000 := data], 0x555000));
  }
}
