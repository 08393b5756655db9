/** The behaviours the crate's own tests exercise, stated over the model:
    the content types they send, the statuses they expect, and the trip of a
    value through a response and back into a request. */
module Scenarios {
  import opened Wrappers
  import opened Http
  import opened MediaTypes
  import opened CborAdapter
  import Rejections

  /** A request carrying only a `content-type` header with the given text. */
  function ContentTypeOnly(text: string): Headers
    requires IsAscii(text)
  {
    map[CONTENT_TYPE := AsciiBytes(text)]
  }

  /** The verdict on a header written from a well-formed media type, stated
      on the text itself. */
  lemma Written(m: MediaType, gaps: seq<Gap>, text: string)
    requires WellFormed(m) && |gaps| == |m.params| && Spaced(gaps)
    requires Render(m, gaps) == text
    ensures IsAscii(text)
    ensures IsValidCborContentType(ContentTypeOnly(text)) == IsCbor(m)
  {
    RenderedContentType(map[], m, gaps);
  }

  const CHARSET: seq<Parameter> := [Parameter("charset", "utf-8")]

  // Facts about the literal media types the tests send.

  lemma CborWellFormed()
    ensures WellFormed(MediaType("application", "cbor", []))
  {
  }

  lemma CborCharsetWellFormed()
    ensures WellFormed(MediaType("application", "cbor", CHARSET))
  {
  }

  lemma CborCharsetIsCbor()
    ensures IsCbor(MediaType("application", "cbor", CHARSET))
  {
  }

  lemma CloudEventsWellFormed()
    ensures WellFormed(MediaType("application", "cloudevents+cbor", []))
  {
  }

  lemma CloudEventsIsCbor()
    ensures IsCbor(MediaType("application", "cloudevents+cbor", []))
  {
    assert LastIndexOf("cloudevents+cbor", '+') == Some(11);
  }

  lemma CloudEventsRenders(text: string)
    requires text == "application/cloudevents+cbor"
    ensures Render(MediaType("application", "cloudevents+cbor", []), []) == text
  {
  }

  lemma TextPlainWellFormed()
    ensures WellFormed(MediaType("text", "plain", CHARSET))
  {
  }

  lemma CharsetSpacedRenders(text: string)
    requires text == "application/cbor; charset=utf-8"
    ensures Render(MediaType("application", "cbor", CHARSET), [Gap("", " ")]) == text
  {
  }

  lemma CharsetTightRenders(text: string)
    requires text == "application/cbor;charset=utf-8"
    ensures Render(MediaType("application", "cbor", CHARSET), [Gap("", "")]) == text
  {
  }

  lemma TextPlainRenders(text: string)
    requires text == TEXT_PLAIN_UTF_8
    ensures Render(MediaType("text", "plain", CHARSET), [Gap("", " ")]) == text
  {
  }

  lemma AcceptsApplicationCbor(text: string)
    requires text == "application/cbor"
    ensures IsAscii(text) && IsValidCborContentType(ContentTypeOnly(text))
  {
    CborWellFormed();
    Written(MediaType("application", "cbor", []), [], text);
  }

  /** A parameter after the `;`, with a space before it, is ignored. */
  lemma AcceptsCharsetSpaced(text: string)
    requires text == "application/cbor; charset=utf-8"
    ensures IsAscii(text) && IsValidCborContentType(ContentTypeOnly(text))
  {
    CborCharsetWellFormed();
    CborCharsetIsCbor();
    CharsetSpacedRenders(text);
    Written(MediaType("application", "cbor", CHARSET), [Gap("", " ")], text);
  }

  /** A parameter right after the `;` is ignored too. */
  lemma AcceptsCharsetTight(text: string)
    requires text == "application/cbor;charset=utf-8"
    ensures IsAscii(text) && IsValidCborContentType(ContentTypeOnly(text))
  {
    CborCharsetWellFormed();
    CborCharsetIsCbor();
    CharsetTightRenders(text);
    Written(MediaType("application", "cbor", CHARSET), [Gap("", "")], text);
  }

  /** A `+cbor` structured-syntax suffix is enough. */
  lemma AcceptsCborSuffix(text: string)
    requires text == "application/cloudevents+cbor"
    ensures IsAscii(text) && IsValidCborContentType(ContentTypeOnly(text))
  {
    CloudEventsWellFormed();
    CloudEventsIsCbor();
    CloudEventsRenders(text);
    Written(MediaType("application", "cloudevents+cbor", []), [], text);
  }

  /** The subtype `cbor` under another top-level type is refused. */
  lemma RefusesTextCbor(text: string)
    requires text == "text/cbor"
    ensures IsAscii(text) && !IsValidCborContentType(ContentTypeOnly(text))
  {
    Written(MediaType("text", "cbor", []), [], text);
  }

  /** Text that is not a media type at all is refused. */
  lemma RefusesFoobar(text: string)
    requires text == "foobar"
    ensures IsAscii(text) && !IsValidCborContentType(ContentTypeOnly(text))
  {
    assert Span(text, IsTokenChar) == 6;
    assert Parse(text) == None;
    ToStrOfText(text);
  }

  /** The plain-text content type of an encode failure is not one the extractor accepts. */
  lemma RefusesTextPlain(text: string)
    requires text == TEXT_PLAIN_UTF_8
    ensures IsAscii(text) && !IsValidCborContentType(ContentTypeOnly(text))
  {
    TextPlainWellFormed();
    TextPlainRenders(text);
    Written(MediaType("text", "plain", CHARSET), [Gap("", " ")], text);
  }

  /** A request without `content-type` is refused with 415 and its body is
      never read, whatever the body and the target type. */
  lemma NoContentTypeRefused<T, B, D>(
    headers: Headers, readBody: Result<seq<Byte>, B>, decode: seq<Byte> -> Result<T, D>,
    bytesResponse: B -> Response)
    requires CONTENT_TYPE !in headers
    ensures var x := FromRequest(headers, readBody, decode);
            && !x.bodyRead && x.result.Err?
            && Rejections.IntoResponse(x.result.error, bytesResponse).status == 415
  {
    RejectionStatus(headers, readBody, decode, bytesResponse);
  }

  /** A CBOR request whose body does not decode into the target type, be it
      malformed or of another shape, is refused with 400. */
  lemma UndecodableBodyRefused<T, B, D>(
    body: seq<Byte>, decode: seq<Byte> -> Result<T, D>, bytesResponse: B -> Response)
    requires decode(body).Err?
    ensures IsAscii("application/cbor")
            && var x := FromRequest(ContentTypeOnly("application/cbor"), Ok(body), decode);
            && x.bodyRead && x.result.Err?
            && Rejections.IntoResponse(x.result.error, bytesResponse).status == 400
  {
    var h := ContentTypeOnly("application/cbor");
    AcceptsApplicationCbor("application/cbor");
    assert IsValidCborContentType(h);
    RejectionStatus(h, Ok(body), decode, bytesResponse);
  }

  /** A value sent back as a response and then received as a request, with
      the response's content type and body, is extracted unchanged, provided
      the codec decodes what it encodes. */
  lemma RespondThenExtract<T, B, E, D>(
    v: T, encode: T -> Result<seq<Byte>, E>, decode: seq<Byte> -> Result<T, D>)
    requires encode(v).Ok? && decode(encode(v).value) == Ok(v)
    ensures var resp := CborAdapter.IntoResponse(Cbor(v), encode);
            && resp.contentType == "application/cbor"
            && FromRequest<T, B, D>(ContentTypeOnly(resp.contentType), Ok(resp.body), decode).result == Ok(Cbor(v))
  {
    AcceptsApplicationCbor(CborAdapter.IntoResponse(Cbor(v), encode).contentType);
  }
}
