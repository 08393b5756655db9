/** `CborRejection`: why extraction failed, one of exactly three reasons. */
module Rejections {
  import opened Wrappers
  import opened Http
  import Errors

  /** `B` is the body reader's own rejection type, kept opaque. */
  datatype CborRejection<B> =
    | MissingCBorContentType(missing: Errors.MissingCBorContentType)
    | BytesRejection(bytes: B)
    | FailedToParseCbor(failed: Errors.FailedToParseCbor)

  /** The response for a rejection. The body reader's rejection answers for
      itself through `bytesResponse`; the other two use their fixed responses. */
  function IntoResponse<B>(r: CborRejection<B>, bytesResponse: B -> Response): (resp: Response)
    ensures r.MissingCBorContentType? ==>
              && resp.status == 415 && resp.contentType == TEXT_PLAIN_UTF_8
              && ToStr(resp.body) == Some(Errors.MissingContentTypeBodyText())
    ensures r.FailedToParseCbor? ==>
              && resp.status == 400 && resp.contentType == TEXT_PLAIN_UTF_8
              && ToStr(resp.body) == Some(Errors.ParseFailureBodyText())
    ensures r.BytesRejection? ==> resp == bytesResponse(r.bytes)
  {
    match r
    case MissingCBorContentType(c) => Errors.MissingContentTypeResponse(c)
    case BytesRejection(b) => bytesResponse(b)
    case FailedToParseCbor(f) => Errors.ParseFailureResponse(f)
  }

  function FromFailedToParseCbor<B>(x: Errors.FailedToParseCbor): (r: CborRejection<B>)
    ensures r.FailedToParseCbor? && r.failed == x
  {
    FailedToParseCbor(x)
  }

  function FromMissingCBorContentType<B>(x: Errors.MissingCBorContentType): (r: CborRejection<B>)
    ensures r.MissingCBorContentType? && r.missing == x
  {
    MissingCBorContentType(x)
  }

  /** Wrapping keeps the body reader's rejection as it is, and so its response. */
  function FromBytesRejection<B>(x: B): (r: CborRejection<B>)
    ensures r.BytesRejection? && r.bytes == x
  {
    BytesRejection(x)
  }

  /** Converting a rejection and then answering it gives the response the
      original error gives on its own: nothing is remapped on the way. */
  lemma ConversionsKeepResponses<B>(
    m: Errors.MissingCBorContentType, b: B, p: Errors.FailedToParseCbor, bytesResponse: B -> Response)
    ensures IntoResponse(FromMissingCBorContentType<B>(m), bytesResponse) == Errors.MissingContentTypeResponse(m)
    ensures IntoResponse(FromBytesRejection(b), bytesResponse) == bytesResponse(b)
    ensures IntoResponse(FromFailedToParseCbor<B>(p), bytesResponse) == Errors.ParseFailureResponse(p)
  {
  }

  /** If the body reader only ever answers with client errors, so does every rejection. */
  lemma RejectionIsClientError<B>(r: CborRejection<B>, bytesResponse: B -> Response)
    requires forall b :: IsClientError(bytesResponse(b).status)
    ensures IsClientError(IntoResponse(r, bytesResponse).status)
  {
  }
}
