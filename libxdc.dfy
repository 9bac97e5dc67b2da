/**
 * The `LibXDC` session wrapper around the foreign decode engine: construction with four filters,
 * a zero-filled coverage bitmap and a page-fetch provider; the fetch trampoline the engine calls;
 * `decode` with its end-of-trace sentinel; and release of the engine handle.
 *
 * The engine itself is not modelled. `Engine` records what the wrapper hands it, and an
 * `EngineOracle` chosen by the caller stands for its answers.
 */
module LibXdc {
  import opened Common
  import opened DecoderResults
  import opened ElfPages
  import opened ElfPageCache

  /** The byte that must end every trace buffer handed to `decode`. */
  const PT_TRACE_END: byte := 0x55

  /** Exactly four (start, end) address filters; unused slots are (0, 0). */
  type FilterSet = f: seq<(U64, U64)> | |f| == 4 witness [(0, 0), (0, 0), (0, 0), (0, 0)]

  /** The filters in the engine's layout, one `[start, end]` array per slot, in order. */
  function FlattenFilters(filter: FilterSet): seq<seq<U64>>
  {
    seq(4, k requires 0 <= k < 4 => [filter[k].0, filter[k].1])
  }

  /** Reads the pairs back out of the engine's layout. */
  function UnflattenFilters(flat: seq<seq<U64>>): FilterSet
    requires |flat| == 4 && forall k | 0 <= k < 4 :: |flat[k]| == 2
  {
    seq(4, k requires 0 <= k < 4 => (flat[k][0], flat[k][1]))
  }

  /** Flattening keeps the four slots in order, each as `[start, end]`, and loses nothing. */
  lemma FlattenFiltersInverse(filter: FilterSet)
    ensures |FlattenFilters(filter)| == 4
    ensures forall k | 0 <= k < 4 :: |FlattenFilters(filter)[k]| == 2
    ensures UnflattenFilters(FlattenFilters(filter)) == filter
  {
  }

  /** The trace ends with the sentinel, as `decode` asserts. */
  predicate EndsWithTraceEnd(data: seq<byte>)
  {
    |data| > 0 && data[|data| - 1] == PT_TRACE_END
  }

  /**
   * The caller's preparation of a trace (the tester, before `decode`): append the sentinel only
   * when it is missing. The result always satisfies `decode`'s assertions, and the engine's
   * logical trace is the original one.
   */
  function WithTraceEnd(trace: seq<byte>): (r: seq<byte>)
    ensures EndsWithTraceEnd(r)
    ensures EndsWithTraceEnd(trace) ==> r == trace
    ensures !EndsWithTraceEnd(trace) ==> |r| == |trace| + 1 && r[..|r| - 1] == trace
  {
    if EndsWithTraceEnd(trace) then trace else trace + [PT_TRACE_END]
  }

  /** Preparing a prepared trace changes nothing. */
  lemma WithTraceEndIdempotent(trace: seq<byte>)
    ensures WithTraceEnd(WithTraceEnd(trace)) == WithTraceEnd(trace)
  {
  }

  /** A trace without the sentinel and the same trace with it appended prepare to the same buffer. */
  lemma WithTraceEndAgrees(trace: seq<byte>)
    requires !EndsWithTraceEnd(trace)
    ensures WithTraceEnd(trace + [PT_TRACE_END]) == WithTraceEnd(trace)
  {
  }

  /**
   * The result of `decode` for an engine code: its classification, or a panic on a code that
   * names no outcome.
   */
  function Classify(code: DecoderResultCode): (r: Outcome<DecoderResult>)
    ensures r.Returned? <==> code < 5
    ensures r.Returned? ==> AsCode(r.value) == code
  {
    match TryFrom(code)
    case Ok(v) => Returned(v)
    case Err(_) => Panicked("Could not parse DecoderResult from libxdc_decode call")
  }

  /**
   * What the foreign engine will answer: whether initialisation succeeds, and each decode's code.
   * The engine keeps state between calls (its trace cache, the bitmap), so a code may depend on
   * every earlier request as well as on the current one.
   */
  datatype EngineOracle = EngineOracle(
    initSucceeds: bool,
    decodeCode: (seq<(seq<byte>, nat)>, seq<byte>, nat) -> DecoderResultCode)

  /** A `libxdc_t` handle: what it was initialised with and the decode requests it has received. */
  class Engine {
    const filters: seq<seq<U64>>
    const fetchContext: ElfExecutablePageCache
    const bitmap: array<byte>
    const bitmapSize: U64
    const oracle: EngineOracle
    var decodeRequests: seq<(seq<byte>, nat)>
    var freed: bool

    constructor Init(filters: seq<seq<U64>>, fetchContext: ElfExecutablePageCache, bitmap: array<byte>,
                     bitmapSize: U64, oracle: EngineOracle)
      ensures this.filters == filters && this.fetchContext == fetchContext && this.bitmap == bitmap
      ensures this.bitmapSize == bitmapSize && this.oracle == oracle
      ensures decodeRequests == [] && !freed
    {
      this.filters := filters;
      this.fetchContext := fetchContext;
      this.bitmap := bitmap;
      this.bitmapSize := bitmapSize;
      this.oracle := oracle;
      decodeRequests := [];
      freed := false;
    }

    /**
     * `libxdc_decode(self, data, len)`: answers the oracle's code for this request after the
     * earlier ones, and may write anywhere in the bitmap.
     */
    method Decode(data: seq<byte>, len: nat) returns (code: DecoderResultCode)
      requires !freed
      modifies this, bitmap
      ensures !freed && code == oracle.decodeCode(old(decodeRequests), data, len)
      ensures decodeRequests == old(decodeRequests) + [(data, len)]
    {
      code := oracle.decodeCode(decodeRequests, data, len);
      decodeRequests := decodeRequests + [(data, len)];
    }

    /** `libxdc_free`. */
    method Free()
      requires !freed
      modifies this
      ensures freed && decodeRequests == old(decodeRequests)
    {
      freed := true;
    }
  }

  /** `libxdc_init`: a fresh engine holding what it was given, or null when initialisation fails. */
  method LibxdcInit(filters: seq<seq<U64>>, fetchContext: ElfExecutablePageCache, bitmap: array<byte>,
                    bitmapSize: U64, oracle: EngineOracle) returns (h: Engine?)
    ensures h == null <==> !oracle.initSucceeds
    ensures h != null ==>
      && fresh(h) && h.filters == filters && h.fetchContext == fetchContext && h.bitmap == bitmap
      && h.bitmapSize == bitmapSize && h.oracle == oracle && h.decodeRequests == [] && !h.freed
  {
    if oracle.initSucceeds {
      h := new Engine.Init(filters, fetchContext, bitmap, bitmapSize, oracle);
    } else {
      h := null;
    }
  }

  /** The engine's `*mut bool` out-parameter of the fetch callback. */
  class FoundFlag {
    var value: bool

    constructor ()
      ensures !value
    {
      value := false;
    }
  }

  /**
   * `page_cache_fetch_trampoline`, with the provider the repository passes (a lookup in the page
   * cache): a hit sets the flag and returns the stored page buffer; a miss clears the flag and
   * returns null.
   */
  method PageCacheFetchTrampoline(cache: ElfExecutablePageCache, addr: U64, result: FoundFlag)
    returns (p: array?<byte>)
    requires cache.Valid()
    modifies result
    ensures result.value <==> addr in cache.Contents()
    ensures result.value ==> p != null && p == cache.pageData[addr] && p[..] == cache.Contents()[addr]
    ensures !result.value ==> p == null
  {
    var page := cache.GetPageData(addr);
    match page
    case Some(buffer) =>
      result.value := true;
      p := buffer;
    case None =>
      result.value := false;
      p := null;
  }

  /** The session: the engine handle, the page-fetch provider and the coverage bitmap. */
  class LibXDC {
    var wrapped: Engine?
    const pageCacheFetch: ElfExecutablePageCache
    const bitmap: array<byte>
    /** Every handle this session has passed to `libxdc_free`, null included. */
    var freeCalls: seq<Engine?>

    /** A live session: the handle is set, not freed, and bound to this session's bitmap and provider. */
    ghost predicate Valid()
      reads this, wrapped
    {
      && wrapped != null && !wrapped.freed
      && wrapped.bitmap == bitmap && wrapped.bitmapSize == bitmap.Length
      && wrapped.fetchContext == pageCacheFetch
    }

    /** The struct as first assembled, before the engine is initialised: the handle is null. */
    constructor Unbound(pageCacheFetch: ElfExecutablePageCache, bitmap: array<byte>)
      ensures wrapped == null && this.pageCacheFetch == pageCacheFetch && this.bitmap == bitmap
      ensures freeCalls == []
    {
      wrapped := null;
      freeCalls := [];
      this.pageCacheFetch := pageCacheFetch;
      this.bitmap := bitmap;
    }

    /**
     * `LibXDC::new`. The session is assembled with a fresh zero-filled bitmap of `bitmapSize`
     * bytes before the engine is initialised. When initialisation fails, the `assert!` panics and
     * unwinding drops that session, whose handle is still null, so `libxdc_free` gets null.
     * Otherwise the session is live and its engine got the four filters in order.
     * `session` is the assembled session in both cases.
     */
    static method New(filter: FilterSet, pageCacheFetch: ElfExecutablePageCache, bitmapSize: U64,
                      oracle: EngineOracle) returns (r: Outcome<LibXDC>, session: LibXDC)
      ensures fresh(session) && fresh(session.bitmap) && session.pageCacheFetch == pageCacheFetch
      ensures session.bitmap.Length == bitmapSize
      ensures forall i | 0 <= i < session.bitmap.Length :: session.bitmap[i] == 0
      ensures r.Panicked? <==> !oracle.initSucceeds
      ensures r.Panicked? ==> session.wrapped == null && session.freeCalls == [null]
      ensures r.Returned? ==>
        && r.value == session && fresh(session.wrapped) && session.Valid() && session.freeCalls == []
        && session.wrapped.filters == FlattenFilters(filter)
        && session.wrapped.oracle == oracle && session.wrapped.decodeRequests == []
    {
      var filters := FlattenFilters(filter);
      var bitmap := new byte[bitmapSize](_ => 0);
      session := new LibXDC.Unbound(pageCacheFetch, bitmap);
      var res := LibxdcInit(filters, session.pageCacheFetch, session.bitmap, bitmapSize, oracle);
      if res == null {
        session.Drop();
        return Panicked("LibXDC Initializiation failed!"), session;
      }
      session.wrapped := res;
      return Returned(session), session;
    }

    /**
     * `decode`: panics before calling the engine unless the trace ends with the sentinel;
     * otherwise hands the engine the buffer with the sentinel left out of the length, and returns
     * the classification of its code.
     */
    method Decode(data: seq<byte>) returns (r: Outcome<DecoderResult>)
      requires Valid()
      modifies wrapped, bitmap
      ensures Valid()
      ensures !EndsWithTraceEnd(data) ==> r.Panicked? && unchanged(wrapped) && unchanged(bitmap)
      ensures EndsWithTraceEnd(data) ==>
        && wrapped.decodeRequests == old(wrapped.decodeRequests) + [(data, |data| - 1)]
        && r == Classify(wrapped.oracle.decodeCode(old(wrapped.decodeRequests), data, |data| - 1))
    {
      if |data| == 0 {
        return Panicked("assertion failed: data.len() > 0");
      }
      if data[|data| - 1] != PT_TRACE_END {
        return Panicked("assertion failed: data[data.len() - 1] == 0x55");
      }
      var code := wrapped.Decode(data, |data| - 1);
      r := Classify(code);
    }

    /**
     * `Drop`: passes the handle to `libxdc_free`, whether or not it is null, and leaves it null.
     * A live engine is freed; its requests stay as they were.
     */
    method Drop()
      requires wrapped != null ==> Valid()
      modifies this, wrapped
      ensures wrapped == null && freeCalls == old(freeCalls) + [old(wrapped)]
      ensures old(wrapped) != null ==>
        old(wrapped).freed && old(wrapped).decodeRequests == old(wrapped.decodeRequests)
    {
      if wrapped != null {
        wrapped.Free();
      }
      freeCalls := freeCalls + [wrapped];
      wrapped := null;
    }
  }
}
