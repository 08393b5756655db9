# axum-cbor, modelled in Dafny

`axum-cbor` provides `Cbor<T>`, an axum extractor and responder for CBOR
payloads. This project models the three core pieces:

- **The content-type gate** (`is_valid_cbor_content_type`). A request is
  accepted only when its `content-type` header is present and reads as
  visible ASCII text. The text must also parse as a media type whose type
  is `application` and whose subtype is `cbor` or ends in the `+cbor`
  structured-syntax suffix.
- **Extraction** (`from_request`). The gate runs first; a refusal gives
  `MissingCBorContentType` and the body is never read. Otherwise the body is
  read; a read failure is passed on as `BytesRejection`. Then the body is
  decoded; a decode failure gives `FailedToParseCbor`, and the decoder's own
  error is dropped.
- **Responses.** A value is encoded as an `application/cbor` response. When
  encoding fails, the response is a plain-text 500 "Failed to serialize".
  `CborRejection` answers with 415 for a missing content type and 400 for a
  decode failure, and delegates to the body reader's rejection in the
  remaining case.

The modules follow the crate:

- `Http`: bytes, header maps, `HeaderValue::to_str`, status codes and plain-text responses.
- `MediaTypes`: a stand-in for the media-type parse `content_type.parse::<mime::Mime>()`, following the grammar of section 3.1.1.1 of RFC 7231.
- `Errors`: `src/errors.rs`.
- `Rejections`: `src/cbor_rejecton.rs` plus the `From` conversions.
- `CborAdapter`: `src/cbor.rs`.
- `Scenarios`: the crate's own test cases, restated as lemmas.
- `Wrappers`: `Option` and `Result`.

The `mime` crate is not part of this model. `MediaTypes` stands in for it
with the grammar of section 3.1.1.1 of RFC 7231,
`type "/" subtype *( OWS ";" OWS name "=" value )`, with tokens and optional
whitespace as in section 5.6 of RFC 9110. That
grammar comes with two partners:

- a renderer, `Render`, which writes a media type out with any whitespace
  around each `;`;
- two lemmas proving that `Parse` is exactly the inverse of `Render` on
  well-formed media types: `ParseRender` proves rendering then parsing gives
  the media type back, and `ParseComplete` proves everything `Parse` accepts
  is some rendering.

With these, `CborAdapter.AcceptsExactly` characterises the gate in
closed form: a header is accepted exactly when it is the written form of a
CBOR-family media type. The subtype and suffix follow `mime`'s documented
split at the `+`: `subtype()` is the part before it and `suffix()` the part
after it. The model splits at the last `+`.

The body reader, the CBOR decoder and the CBOR encoder are collaborators
passed in as values:

- the body reader's outcome is a `Result<seq<Byte>, B>`;
- the decoder is a function `seq<Byte> -> Result<T, D>`;
- the encoder is a function `T -> Result<seq<Byte>, E>`;
- the response of the body reader's own rejection is a function `B -> Response`.

## Model

| member | source | states |
|---|---|---|
| Http.ToStr | src/cbor.rs:19-21 | a header value reads as text exactly when every byte is a tab or visible ASCII, and the text read is the same bytes back |
| Http.ToStrOfText | src/cbor.rs:19-21 | any visible ASCII text, sent as bytes, reads back as that same text |
| Http.TextResponse | src/errors.rs:16-20 | a `(status, text)` response carries that status, is `text/plain; charset=utf-8`, and its body reads back as the text |
| MediaTypes.SubtypeName | src/cbor.rs:27-28 | the subtype without its suffix: all of the subtype when it has no `+`, otherwise the part that, followed by `+` and the suffix, gives the whole subtype |
| MediaTypes.SuffixOf | src/cbor.rs:28 | a suffix exists exactly when the subtype contains `+`; it contains no `+` itself and is what follows the last `+` |
| MediaTypes.ParseRender | src/cbor.rs:23-25 | parsing any rendering of a well-formed media type, with any whitespace around each `;`, gives that media type back |
| MediaTypes.ParseComplete | src/cbor.rs:23-25 | whatever parses is well formed and is the rendering of its result with some whitespace |
| MediaTypes.RenderVisible | src/cbor.rs:19-25 | every rendering of a well-formed media type is visible ASCII, so it survives `to_str` |
| Errors.ParseFailureBodyText | src/errors.rs:25-27 | the decode-failure body text is visible ASCII |
| Errors.ParseFailureStatus | src/errors.rs:31-33 | a decode failure is 400, a client error |
| Errors.ParseFailureResponse | src/errors.rs:16-20 | the decode-failure response has that status, is plain text, and its body reads back as that body text |
| Errors.MissingContentTypeBodyText | src/errors.rs:54-56 | the missing-content-type body text is visible ASCII |
| Errors.MissingContentTypeStatus | src/errors.rs:60-62 | a missing or foreign content type is 415, a client error |
| Errors.MissingContentTypeResponse | src/errors.rs:45-49 | the missing-content-type response has that status, is plain text, and its body reads back as that body text |
| Errors.RejectionsDistinguishable | src/errors.rs:16-62 | the two rejections differ both in status and in body |
| Rejections.IntoResponse | src/cbor_rejecton.rs:15-23 | a missing content type answers 415 as plain text with its body text, a decode failure answers 400 as plain text with its body text, and a body-read failure answers with exactly the body reader's response |
| Rejections.FromFailedToParseCbor | src/errors.rs:10-14 | the conversion gives the `FailedToParseCbor` variant carrying the error |
| Rejections.FromMissingCBorContentType | src/errors.rs:39-43 | the conversion gives the `MissingCBorContentType` variant carrying the error |
| Rejections.FromBytesRejection | src/cbor_rejecton.rs:25-29 | the conversion gives the `BytesRejection` variant carrying the reader's rejection unchanged |
| Rejections.ConversionsKeepResponses | src/cbor_rejecton.rs:15-29 | converting an error into a `CborRejection` and answering it gives the response the error gives on its own |
| Rejections.RejectionIsClientError | src/cbor_rejecton.rs:15-23 | if the body reader only answers with client errors, every rejection is a client error |
| CborAdapter.IsValidCborContentType | src/cbor.rs:14-31 | a missing header, a value that does not read as text, or text that is not a media type is refused; an accepted header is a media type of type `application` |
| CborAdapter.RenderedContentType | src/cbor.rs:23-30 | a header written from a well-formed media type is accepted exactly when that media type is `application/cbor` or `application/*` with suffix `cbor`, whatever its parameters and whitespace |
| CborAdapter.AcceptedIsSpelled | src/cbor.rs:14-31 | every accepted header is the written form of a well-formed CBOR-family media type |
| CborAdapter.SpelledIsAccepted | src/cbor.rs:14-31 | every written form of a well-formed CBOR-family media type is accepted |
| CborAdapter.AcceptsExactly | src/cbor.rs:14-31 | the gate accepts exactly the headers that are written forms of CBOR-family media types |
| CborAdapter.FromRequest | src/cbor.rs:39-46 | the body is read exactly when the gate passes; refusal gives `MissingCBorContentType`; a read failure is passed on unchanged; success holds exactly when the gate, the read and the decode all succeed, and then carries the decoded value; a decode failure gives `FailedToParseCbor` |
| CborAdapter.BodyIgnoredWhenRefused | src/cbor.rs:40-42 | when the gate refuses, the outcome is the same whatever the body would have been |
| CborAdapter.DecodeErrorDiscarded | src/cbor.rs:44-45 | two decoders that agree on success and on the decoded value give the same outcome, whatever their errors |
| CborAdapter.RejectionStatus | src/cbor.rs:39-46 | a failed extraction answers 415 when the gate refuses, the body reader's response when reading fails, and 400 when decoding fails |
| CborAdapter.IntoResponse | src/cbor.rs:53-74 | a successful encoding answers 200 `application/cbor` with exactly the encoded bytes; a failed one answers a plain-text 500 "Failed to serialize" |
| CborAdapter.EncodeErrorHidden | src/cbor.rs:55-64 | every failing encoder gives the same response: the cause of the failure is not revealed |
| Scenarios.Written | src/cbor.rs:14-31 | a request whose only header is a rendered media type is accepted exactly when that media type is in the CBOR family |
| Scenarios.AcceptsApplicationCbor | src/test.rs:58 | `application/cbor` is accepted |
| Scenarios.AcceptsCharsetSpaced | src/test.rs:59 | `application/cbor; charset=utf-8` is accepted |
| Scenarios.AcceptsCharsetTight | src/test.rs:60 | `application/cbor;charset=utf-8` is accepted |
| Scenarios.AcceptsCborSuffix | src/test.rs:61 | `application/cloudevents+cbor` is accepted |
| Scenarios.RefusesTextCbor | src/test.rs:62 | `text/cbor` is refused |
| Scenarios.RefusesFoobar | src/test.rs:63 | `foobar` is refused |
| Scenarios.RefusesTextPlain | src/cbor.rs:14-31 | the gate refuses `mime::TEXT_PLAIN_UTF_8` (`text/plain; charset=utf-8`), the content type of the encode-failure response |
| Scenarios.NoContentTypeRefused | src/test.rs:36-40 | a request without `content-type` is answered 415 and its body is not read |
| Scenarios.UndecodableBodyRefused | src/test.rs:67-92 | an `application/cbor` request whose body does not decode into the target type is answered 400 |
| Scenarios.RespondThenExtract | src/test.rs:13-24 | chains `response_cbor_data` (src/test.rs:106-121, a value answered as a response) with `deserialize_body` (the extractor receiving a CBOR request): a value sent as a response, then received with the response's content type and body, is extracted unchanged whenever decoding inverts encoding |

## Left out

- The `mime` crate is not part of this model. `MediaTypes` replaces it with the grammar of RFC 7231. Case-insensitive matching of type and subtype is left out, so `Application/CBOR` is refused here. Quoted parameter values, trailing whitespace after the last parameter, and `mime`'s own length limits are also left out.
- MediaTypes.Parse: the RFC 7231 grammar decides these forms, and they are not checked against `mime`:
  - `application/cbor ; charset=utf-8` (whitespace before `;`) is accepted;
  - tabs around `;` are accepted;
  - `application/+cbor` is accepted: its subtype name is empty and its suffix is `cbor`;
  - `application/cbor;` (a `;` with no parameter after it) is refused.
- MediaTypes.Parse: section 5.6.6 of RFC 9110 makes the parameter after each `;` optional (`*( OWS ";" OWS [ parameter ] )`). This model follows RFC 7231 instead and refuses an empty parameter, so `application/cbor;` and `application/cbor;charset=utf-8;` are refused.
- MediaTypes.SubtypeName: splits at the last `+`. With another `+` earlier in the subtype, `mime` may split elsewhere. Under this split, `application/cbor+json` is accepted because its subtype before the suffix is `cbor`.
- Header names are matched exactly as `content-type`. A header map with several values for one name is not modelled: `headers.get` returns the first value, and the model holds one value per name.
- `HeaderValue::to_str` and the plain-text responses of `(StatusCode, &str)` come from the `http` and `axum` crates, which are not part of this model. They are modelled as "every byte is a tab or visible ASCII" and as a `text/plain; charset=utf-8` body holding the text's bytes.
- The async plumbing and the request state `S` are not modelled. `Bytes::from_request` is reduced to its outcome. Body size limits and what `BytesRejection` answers belong to axum and are passed in as values.
- The `ciborium` codec is not modelled. Encoding and decoding are function parameters, so the round trip of a real value through CBOR appears as the premise of Scenarios.RespondThenExtract, not as a proved fact.
- CborAdapter.IntoResponse: the success status is the default 200. Headers added by axum besides `content-type` are left out.
- `src/lib.rs`, `src/request_builder.rs` and `src/test.rs` are not modelled as code. The tests appear only as the `Scenarios` lemmas, and `request_builder.rs` only as the `application/cbor` content type those lemmas send. The tests whose outcome depends on `ciborium` encoding a particular value (`deserialize_body`, `response_cbor_error`) are covered only through the function parameters.
