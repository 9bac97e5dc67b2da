/** The classification of the decode engine's return code (`DecoderResult`). */
module DecoderResults {
  import opened Common

  /** The engine's `decoder_result_t`, a C enum carried as an unsigned 32-bit integer. */
  type DecoderResultCode = U32

  /** The five outcomes of one decode call, in declaration order. */
  datatype DecoderResult = Success | SuccessPtOverflow | PageFault | Error | UnknownPacket

  /** The conversion failure: the code is not one of the five known outcomes. */
  datatype ConversionError = UnknownDecoderResult(value: DecoderResultCode)

  /**
   * The discriminant each variant is declared with (`variant as decoder_result_t`).
   * The engine's enum numbers its outcomes 0 to 4 in declaration order.
   */
  function AsCode(r: DecoderResult): (c: DecoderResultCode)
    ensures c < 5
  {
    match r
    case Success => 0
    case SuccessPtOverflow => 1
    case PageFault => 2
    case Error => 3
    case UnknownPacket => 4
  }

  /**
   * `TryFrom<decoder_result_t>`: codes 0 to 4 name an outcome, every other code is an error.
   * The second ensures is the source's own `assert_eq!(val as decoder_result_t, value)`.
   */
  function TryFrom(value: DecoderResultCode): (r: Result<DecoderResult, ConversionError>)
    ensures r.Ok? <==> value < 5
    ensures r.Ok? ==> AsCode(r.value) == value
    ensures r.Err? ==> r.error == UnknownDecoderResult(value)
  {
    match value
    case 0 => Ok(Success)
    case 1 => Ok(SuccessPtOverflow)
    case 2 => Ok(PageFault)
    case 3 => Ok(Error)
    case 4 => Ok(UnknownPacket)
    case _ => Err(UnknownDecoderResult(value))
  }

  /** Converting a variant to its discriminant and back gives the same variant. */
  lemma TryFromAsCode(r: DecoderResult)
    ensures TryFrom(AsCode(r)) == Ok(r)
  {
  }

  /** `TryFrom` is injective on the codes it accepts. */
  lemma TryFromInjective(v1: DecoderResultCode, v2: DecoderResultCode)
    requires TryFrom(v1).Ok? && TryFrom(v1) == TryFrom(v2)
    ensures v1 == v2
  {
  }

  /** Position of a variant in the enum declaration; `#[derive(PartialOrd, Ord)]` orders by it. */
  function DeclarationIndex(r: DecoderResult): nat
  {
    match r
    case Success => 0
    case SuccessPtOverflow => 1
    case PageFault => 2
    case Error => 3
    case UnknownPacket => 4
  }

  /** The derived strict order `<` on `DecoderResult`. */
  predicate Less(a: DecoderResult, b: DecoderResult)
  {
    DeclarationIndex(a) < DeclarationIndex(b)
  }

  /**
   * The derived order runs Success < SuccessPtOverflow < PageFault < Error < UnknownPacket,
   * agrees with the order of the codes, and is a strict total order.
   */
  lemma DerivedOrder(a: DecoderResult, b: DecoderResult, c: DecoderResult)
    ensures Less(Success, SuccessPtOverflow) && Less(SuccessPtOverflow, PageFault)
    ensures Less(PageFault, Error) && Less(Error, UnknownPacket)
    ensures Less(a, b) <==> AsCode(a) < AsCode(b)
    ensures !Less(a, a)
    ensures a != b ==> Less(a, b) || Less(b, a)
    ensures Less(a, b) && Less(b, c) ==> Less(a, c)
  {
  }
}
