/** The slice of HTTP the adapter touches: header bytes, the header map,
    status codes and responses. */
module Http {
  import opened Wrappers

  newtype Byte = x: int | 0 <= x < 256

  /** Request headers, keyed by lower-case header name; one value per name. */
  type Headers = map<string, seq<Byte>>

  const CONTENT_TYPE: string := "content-type"

  /** The media type `text/plain; charset=utf-8` set on plain-text bodies. */
  const TEXT_PLAIN_UTF_8: string := "text/plain; charset=utf-8"

  /** An HTTP status code: three decimal digits (section 15 of RFC 9110). */
  type StatusCode = x: int | 100 <= x <= 999 witness 200

  /** 200 OK, the status a response carries unless something sets another. */
  const OK: StatusCode := 200
  /** 400 Bad Request (section 15.5.1 of RFC 9110). */
  const BAD_REQUEST: StatusCode := 400
  /** 415 Unsupported Media Type (section 15.5.16 of RFC 9110). */
  const UNSUPPORTED_MEDIA_TYPE: StatusCode := 415
  /** 500 Internal Server Error (section 15.6.1 of RFC 9110). */
  const INTERNAL_SERVER_ERROR: StatusCode := 500

  predicate IsClientError(s: StatusCode) { 400 <= s <= 499 }

  /** A response as the adapter builds it: status, the one `content-type`
      header it sets, and the body bytes. */
  datatype Response = Response(status: StatusCode, contentType: string, body: seq<Byte>)

  predicate IsAscii(s: string) {
    forall i :: 0 <= i < |s| ==> s[i] as int < 128
  }

  /** Bytes a header value may hold and still read as text: TAB and the
      visible ASCII range 0x20 to 0x7E. */
  predicate IsVisibleByte(b: Byte) {
    b == 9 || 32 <= b <= 126
  }

  predicate IsVisibleText(s: string) {
    forall i :: 0 <= i < |s| ==> s[i] == '\t' || ' ' <= s[i] <= '~'
  }

  lemma VisibleConcat(a: string, b: string)
    requires IsVisibleText(a) && IsVisibleText(b)
    ensures IsVisibleText(a + b)
  {
  }

  /** The bytes of an ASCII string: its UTF-8 encoding, one byte per character. */
  function AsciiBytes(s: string): (v: seq<Byte>)
    requires IsAscii(s)
    ensures |v| == |s|
    ensures forall i :: 0 <= i < |s| ==> v[i] as int == s[i] as int
  {
    seq(|s|, i requires 0 <= i < |s| => s[i] as int as Byte)
  }

  /** A header value read as text: defined only when every byte is visible. */
  function ToStr(v: seq<Byte>): (r: Option<string>)
    ensures r.Some? <==> forall i :: 0 <= i < |v| ==> IsVisibleByte(v[i])
    ensures r.Some? ==> IsAscii(r.value) && IsVisibleText(r.value) && AsciiBytes(r.value) == v
  {
    if forall i :: 0 <= i < |v| ==> IsVisibleByte(v[i]) then
      var s := seq(|v|, i requires 0 <= i < |v| => v[i] as int as char);
      assert AsciiBytes(s) == v;
      Some(s)
    else
      None
  }

  /** Reading back the header value written from visible text gives that text. */
  lemma ToStrOfText(s: string)
    requires IsVisibleText(s)
    ensures IsAscii(s)
    ensures ToStr(AsciiBytes(s)) == Some(s)
  {
    var v := AsciiBytes(s);
    assert forall i :: 0 <= i < |v| ==> IsVisibleByte(v[i]);
    assert ToStr(v).value == s;
  }

  /** A plain-text response: the status given, `text/plain; charset=utf-8`
      and the text as the body. */
  function TextResponse(status: StatusCode, text: string): (r: Response)
    requires IsVisibleText(text)
    ensures r.status == status && r.contentType == TEXT_PLAIN_UTF_8
    ensures ToStr(r.body) == Some(text)
  {
    ToStrOfText(text);
    Response(status, TEXT_PLAIN_UTF_8, AsciiBytes(text))
  }
}
