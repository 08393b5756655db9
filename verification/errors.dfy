/** The two rejections this adapter defines itself, each with a fixed status
    and body text. */
module Errors {
  import opened Wrappers
  import opened Http

  /** The body was read but did not decode into the target type. */
  datatype FailedToParseCbor = FailedToParseCbor

  /** The request has no `content-type` naming a CBOR media type. */
  datatype MissingCBorContentType = MissingCBorContentType

  function ParseFailureBodyText(): (r: string)
    ensures IsVisibleText(r)
  {
    "Invalid Request"
  }

  /** A decode failure is the client's fault: 400 Bad Request. */
  function ParseFailureStatus(): (r: StatusCode)
    ensures r == 400 && IsClientError(r)
  {
    BAD_REQUEST
  }

  /** The response is exactly the status and body text above, as plain text. */
  function ParseFailureResponse(e: FailedToParseCbor): (r: Response)
    ensures r.status == ParseFailureStatus()
    ensures r.contentType == TEXT_PLAIN_UTF_8
    ensures ToStr(r.body) == Some(ParseFailureBodyText())
  {
    TextResponse(ParseFailureStatus(), ParseFailureBodyText())
  }

  function MissingContentTypeBodyText(): (r: string)
    ensures IsVisibleText(r)
  {
    var lead, header := "Expected request with ", "`content-type: application/cbor`";
    VisibleConcat(lead, header);
    lead + header
  }

  /** A missing or foreign media type: 415 Unsupported Media Type. */
  function MissingContentTypeStatus(): (r: StatusCode)
    ensures r == 415 && IsClientError(r)
  {
    UNSUPPORTED_MEDIA_TYPE
  }

  /** The response is exactly the status and body text above, as plain text. */
  function MissingContentTypeResponse(e: MissingCBorContentType): (r: Response)
    ensures r.status == MissingContentTypeStatus()
    ensures r.contentType == TEXT_PLAIN_UTF_8
    ensures ToStr(r.body) == Some(MissingContentTypeBodyText())
  {
    TextResponse(MissingContentTypeStatus(), MissingContentTypeBodyText())
  }

  /** The two rejections are told apart by status and by body text. */
  lemma RejectionsDistinguishable(a: FailedToParseCbor, b: MissingCBorContentType)
    ensures ParseFailureResponse(a).status != MissingContentTypeResponse(b).status
    ensures ParseFailureResponse(a).body != MissingContentTypeResponse(b).body
  {
    assert |ParseFailureBodyText()| != |MissingContentTypeBodyText()|;
  }
}
