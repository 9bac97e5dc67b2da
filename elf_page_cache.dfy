/**
 * `ElfExecutablePageCache`: the page map built once from an executable and then lent, page by
 * page, to the decode engine. Each page is its own 4096-byte buffer, so a lookup hands out the
 * stored buffer itself and a write through it changes that page only.
 */
module ElfPageCache {
  import opened Common
  import opened ElfPages
  import ElfPagesProperties

  /** `page_data_from_slice`: a fresh zeroed page buffer with the slice copied into it. */
  method PageDataFromSlice(slice: seq<byte>) returns (a: array<byte>)
    requires |slice| == PAGE_SIZE
    ensures fresh(a) && a[..] == slice
  {
    a := new byte[PAGE_SIZE](_ => 0);
    var k := 0;
    while k < PAGE_SIZE
      invariant 0 <= k <= PAGE_SIZE && a.Length == PAGE_SIZE
      invariant forall m | 0 <= m < k :: a[m] == slice[m]
    {
      a[k] := slice[k];
      k := k + 1;
    }
  }

  class ElfExecutablePageCache {
    /** Relocated page address to the buffer holding that page. */
    var pageData: map<U64, array<byte>>
    /** The runtime base the keys were relocated to. */
    var mappedBase: U64

    /** Every stored buffer is one page long, and no two keys share a buffer. */
    ghost predicate Valid()
      reads this, pageData.Values
    {
      && (forall k | k in pageData :: pageData[k].Length == PAGE_SIZE)
      && (forall k1, k2 | k1 in pageData && k2 in pageData && k1 != k2 :: pageData[k1] != pageData[k2])
    }

    /** The cache as a value: each key's page bytes. */
    ghost function Contents(): map<U64, seq<byte>>
      reads this, pageData.Values
    {
      map k | k in pageData :: pageData[k][..]
    }

    constructor Empty(mappedBase: U64)
      ensures Valid() && pageData == map[] && this.mappedBase == mappedBase
    {
      pageData := map[];
      this.mappedBase := mappedBase;
    }

    /**
     * `executable_page_data_for_elf`: fails exactly as the specification function does, and
     * otherwise holds, in fresh buffers, exactly the pages it describes, under the chosen base.
     */
    static method ExecutablePageDataForElf(file: ElfFile, mappedBase: Option<U64>)
      returns (r: Result<ElfExecutablePageCache, BuildError>)
      ensures r.Err? <==> ExecutablePageData(file, mappedBase).Err?
      ensures r.Err? ==> r.error == ExecutablePageData(file, mappedBase).error
      ensures r.Ok? ==>
        && fresh(r.value) && fresh(r.value.pageData.Values) && r.value.Valid()
        && r.value.Contents() == ExecutablePageData(file, mappedBase).value.pages
        && r.value.mappedBase == ExecutablePageData(file, mappedBase).value.mappedBase
    {
      var plan := PagePlan(file, mappedBase);
      if plan.Err? {
        return Err(plan.error);
      }
      var entries, base := plan.value.0, plan.value.1;
      ElfPagesProperties.PagePlanWhole(file, mappedBase);
      var cache := new ElfExecutablePageCache.Empty(base);
      var j := 0;
      while j < |entries|
        invariant 0 <= j <= |entries|
        invariant cache.Valid() && cache.mappedBase == base
        invariant fresh(cache) && fresh(cache.pageData.Values)
        invariant cache.pageData.Keys == BuildMap(entries[..j]).Keys
        invariant forall k | k in cache.pageData :: cache.pageData[k][..] == BuildMap(entries[..j])[k]
      {
        assert entries[..j + 1][..j] == entries[..j];
        var page := PageDataFromSlice(entries[j].1);
        ghost var before := cache.pageData;
        cache.pageData := cache.pageData[entries[j].0 := page];
        assert forall v | v in cache.pageData.Values :: v == page || v in before.Values by {
          forall v | v in cache.pageData.Values ensures v == page || v in before.Values {
            var k :| k in cache.pageData && cache.pageData[k] == v;
            if k != entries[j].0 {
              assert before[k] == v;
            }
          }
        }
        j := j + 1;
      }
      assert entries[..j] == entries;
      assert cache.Contents() == BuildMap(entries);
      return Ok(cache);
    }

    /**
     * `get_page_data`: the buffer stored under exactly `addr`, lent rather than copied, or
     * nothing; there is no rounding and nothing changes.
     */
    method GetPageData(addr: U64) returns (r: Option<array<byte>>)
      requires Valid()
      ensures r.Some? <==> addr in Contents()
      ensures r.Some? ==> r.value == pageData[addr] && r.value[..] == Contents()[addr]
    {
      if addr in pageData {
        r := Some(pageData[addr]);
      } else {
        r := None;
      }
    }
  }
}
