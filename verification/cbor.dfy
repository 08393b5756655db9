/** The `Cbor<T>` envelope: the content-type gate, extraction of a request
    into a value, and the response built from a value. The body reader, the
    decoder and the encoder are collaborators passed in as values. */
module CborAdapter {
  import opened Wrappers
  import opened Http
  import opened MediaTypes
  import Errors
  import Rejections

  /** The wrapper around one payload value. */
  datatype Cbor<T> = Cbor(value: T)

  /** Whether the request's `content-type` names a CBOR media type: the
      header is present, reads as text, parses as a media type, and that
      media type is `application/cbor` or an `application` subtype with the `+cbor` suffix. */
  function IsValidCborContentType(headers: Headers): (r: bool)
    ensures CONTENT_TYPE !in headers ==> !r
    ensures CONTENT_TYPE in headers && ToStr(headers[CONTENT_TYPE]).None? ==> !r
    ensures CONTENT_TYPE in headers && ToStr(headers[CONTENT_TYPE]).Some? ==>
              (Parse(ToStr(headers[CONTENT_TYPE]).value).None? ==> !r)
    ensures r ==> exists m :: Parse(ToStr(headers[CONTENT_TYPE]).value) == Some(m) && m.top == "application"
  {
    if CONTENT_TYPE !in headers then false
    else
      match ToStr(headers[CONTENT_TYPE])
      case None => false
      case Some(text) =>
        match Parse(text)
        case None => false
        case Some(m) => IsCbor(m)
  }

  /** `v` is the header value obtained by writing `m` out with the whitespace `gaps`. */
  ghost predicate Spells(v: seq<Byte>, m: MediaType, gaps: seq<Gap>) {
    && WellFormed(m) && |gaps| == |m.params| && Spaced(gaps)
    && IsAscii(Render(m, gaps)) && v == AsciiBytes(Render(m, gaps))
  }

  /** A header value written from a well-formed media type is accepted
      exactly when that media type is in the CBOR family; its parameters
      and the whitespace around them play no part. */
  lemma RenderedContentType(headers: Headers, m: MediaType, gaps: seq<Gap>)
    requires WellFormed(m) && |gaps| == |m.params| && Spaced(gaps)
    ensures IsVisibleText(Render(m, gaps))
    ensures IsValidCborContentType(headers[CONTENT_TYPE := AsciiBytes(Render(m, gaps))]) == IsCbor(m)
  {
    RenderVisible(m, gaps);
    ToStrOfText(Render(m, gaps));
    ParseRender(m, gaps);
  }

  /** Every accepted header value is the written form of a CBOR-family media type. */
  lemma AcceptedIsSpelled(headers: Headers) returns (m: MediaType, gaps: seq<Gap>)
    requires IsValidCborContentType(headers)
    ensures CONTENT_TYPE in headers && Spells(headers[CONTENT_TYPE], m, gaps) && IsCbor(m)
  {
    var text := ToStr(headers[CONTENT_TYPE]).value;
    m := Parse(text).value;
    gaps := ParseComplete(text);
  }

  /** Every written form of a CBOR-family media type is accepted. */
  lemma SpelledIsAccepted(headers: Headers, m: MediaType, gaps: seq<Gap>)
    requires CONTENT_TYPE in headers && Spells(headers[CONTENT_TYPE], m, gaps) && IsCbor(m)
    ensures IsValidCborContentType(headers)
  {
    RenderedContentType(headers, m, gaps);
    assert headers[CONTENT_TYPE := AsciiBytes(Render(m, gaps))] == headers;
  }

  /** The gate accepts a request exactly when its `content-type` header is a
      well-formed media type of the CBOR family, with any parameters and any
      whitespace around their separators. */
  lemma AcceptsExactly(headers: Headers)
    ensures IsValidCborContentType(headers) <==>
              CONTENT_TYPE in headers
              && exists m, gaps :: Spells(headers[CONTENT_TYPE], m, gaps) && IsCbor(m)
  {
    if IsValidCborContentType(headers) {
      var m, gaps := AcceptedIsSpelled(headers);
    }
    if CONTENT_TYPE in headers && exists m, gaps :: Spells(headers[CONTENT_TYPE], m, gaps) && IsCbor(m) {
      var m, gaps :| Spells(headers[CONTENT_TYPE], m, gaps) && IsCbor(m);
      SpelledIsAccepted(headers, m, gaps);
    }
  }

  /** What extraction produced, and whether it consumed the request body. */
  datatype Extraction<T, B> = Extraction(result: Result<Cbor<T>, Rejections.CborRejection<B>>, bodyRead: bool)

  /** Extracts a `Cbor<T>` from a request: the content-type gate first, then
      the body (`readBody`, the body reader's outcome, consulted only once the
      gate passes), then `decode`. */
  function FromRequest<T, B, D>(
    headers: Headers, readBody: Result<seq<Byte>, B>, decode: seq<Byte> -> Result<T, D>
  ): (x: Extraction<T, B>)
    ensures x.bodyRead <==> IsValidCborContentType(headers)
    ensures !x.bodyRead ==> x.result.Err? && x.result.error.MissingCBorContentType?
    ensures x.bodyRead && readBody.Err? ==>
              x.result.Err? && x.result.error.BytesRejection? && x.result.error.bytes == readBody.error
    ensures x.result.Ok? <==> x.bodyRead && readBody.Ok? && decode(readBody.value).Ok?
    ensures x.result.Ok? ==> x.result.value.value == decode(readBody.value).value
    ensures x.bodyRead && readBody.Ok? && decode(readBody.value).Err? ==>
              x.result.Err? && x.result.error.FailedToParseCbor?
  {
    if !IsValidCborContentType(headers) then
      Extraction(Err(Rejections.FromMissingCBorContentType(Errors.MissingCBorContentType)), false)
    else
      match readBody
      case Err(b) => Extraction(Err(Rejections.FromBytesRejection(b)), true)
      case Ok(bytes) =>
        match decode(bytes)
        case Ok(v) => Extraction(Ok(Cbor(v)), true)
        case Err(_) => Extraction(Err(Rejections.FromFailedToParseCbor(Errors.FailedToParseCbor)), true)
  }

  /** A request the gate refuses is answered the same whatever its body
      would have been: the body plays no part. */
  lemma BodyIgnoredWhenRefused<T, B, D>(
    headers: Headers, body1: Result<seq<Byte>, B>, body2: Result<seq<Byte>, B>,
    decode: seq<Byte> -> Result<T, D>)
    requires !IsValidCborContentType(headers)
    ensures FromRequest(headers, body1, decode) == FromRequest(headers, body2, decode)
  {
  }

  /** Only whether decoding succeeded, and with what value, matters: the
      decoder's error is dropped. */
  lemma DecodeErrorDiscarded<T, B, D>(
    headers: Headers, readBody: Result<seq<Byte>, B>,
    decode1: seq<Byte> -> Result<T, D>, decode2: seq<Byte> -> Result<T, D>)
    requires readBody.Ok? ==>
               && decode1(readBody.value).Ok? == decode2(readBody.value).Ok?
               && (decode1(readBody.value).Ok? ==> decode1(readBody.value).value == decode2(readBody.value).value)
    ensures FromRequest(headers, readBody, decode1) == FromRequest(headers, readBody, decode2)
  {
  }

  /** The response a client receives when extraction fails: 415 when the gate
      refuses, the body reader's own response when reading fails, and 400
      when decoding fails. */
  lemma RejectionStatus<T, B, D>(
    headers: Headers, readBody: Result<seq<Byte>, B>, decode: seq<Byte> -> Result<T, D>,
    bytesResponse: B -> Response)
    requires FromRequest(headers, readBody, decode).result.Err?
    ensures var resp := Rejections.IntoResponse(FromRequest(headers, readBody, decode).result.error, bytesResponse);
            && (!IsValidCborContentType(headers) ==> resp.status == 415)
            && (IsValidCborContentType(headers) && readBody.Err? ==> resp == bytesResponse(readBody.error))
            && (IsValidCborContentType(headers) && readBody.Ok? ==> resp.status == 400)
  {
  }

  /** The response for a value: its encoding as `application/cbor` with the
      default status, or a plain-text 500 when `encode` fails. */
  function IntoResponse<T, E>(c: Cbor<T>, encode: T -> Result<seq<Byte>, E>): (r: Response)
    ensures encode(c.value).Ok? ==>
              r.status == OK && r.contentType == "application/cbor" && r.body == encode(c.value).value
    ensures encode(c.value).Err? ==>
              r.status == 500 && r.contentType == TEXT_PLAIN_UTF_8
              && ToStr(r.body) == Some("Failed to serialize")
  {
    match encode(c.value)
    case Err(_) => TextResponse(INTERNAL_SERVER_ERROR, "Failed to serialize")
    case Ok(buf) => Response(OK, "application/cbor", buf)
  }

  /** An encode failure says nothing about its cause: every failing encoder
      gives the same response. */
  lemma EncodeErrorHidden<T, E>(c: Cbor<T>, encode1: T -> Result<seq<Byte>, E>, encode2: T -> Result<seq<Byte>, E>)
    requires encode1(c.value).Err? && encode2(c.value).Err?
    ensures IntoResponse(c, encode1) == IntoResponse(c, encode2)
  {
  }
}
