/**
 * `HTTPResponse` of the older generation, whose content is never nil: it
 * defaults to empty, the constructors set Content-Length exactly when the
 * body has bytes, and `raw` always appends the content. The status line and
 * its reader are those of the newest generation.
 */
module LegacyResponse {
  import opened Wrappers
  import opened Bytes
  import opened Utf8
  import opened Text
  import opened Headers
  import opened HeaderParse
  import opened HttpVersion
  import HttpStatus
  import Cookies
  import Response

  datatype HTTPResponse = HTTPResponse(
    content: Bytes,
    version: HTTPVersion,
    headerFields: HeaderFields,
    status: HttpStatus.HTTPStatus,
    cookies: seq<Cookies.Cookie>)

  // ---- init(data:) ------------------------------------------------------

  /**
   * `init(data:)`: the head as in the newest generation; the content is
   * every byte after the empty line, and there are no cookies.
   */
  function FromData(data: Bytes): Outcome<HTTPResponse>
  {
    match Response.ReadHead(data)
    case Trap => Trap
    case Throws(e) => Throws(e)
    case Ok((version, status, fields, end)) => Ok(HTTPResponse(data[end..], version, fields, status, []))
  }

  /** `init(data:)`, field by field, over the shared header loop. */
  method InitFromData(data: Bytes) returns (r: Outcome<HTTPResponse>)
    ensures r == FromData(data)
  {
    var statuslineb := NextSegment(data, 0);
    if statuslineb.None? {
      return Throws(HeaderContainsNonStringLiterial);
    }
    var statusline := Decode(statuslineb.value.0);
    if statusline.None? {
      return Throws(HeaderContainsNonStringLiterial);
    }
    var statuslineComponents := Split(statusline.value, " ");
    if |statuslineComponents| != 3 {
      return Throws(MalformedStatusline);
    }
    var code := ParseInt(statuslineComponents[1], 10);
    if code.None? {
      return Throws(MalformedEntry);
    }
    var status := HttpStatus.FromRaw(code.value).value;
    var version := FromString(statuslineComponents[0]);
    if version.Trap? {
      return Trap;
    }
    if !(version.Ok? && version.value.Some?) {
      return Throws(MalformedEntry);
    }
    var parsed := ParseHeaderFieldsLegacy(data, statuslineb.value.1, map[]);
    if parsed.Throws? {
      return Throws(parsed.error);
    }
    r := Ok(HTTPResponse(parsed.value.1, version.value.value, parsed.value.0, status, []));
  }

  // ---- round trip ---------------------------------------------------------

  /** `raw`: the raw header, then the content, which is always appended. */
  function RawResponse(r: HTTPResponse, order: seq<string>): Bytes
    requires forall i :: 0 <= i < |order| ==> order[i] in r.headerFields
  {
    Raw(Response.Statusline(r.version, r.status), r.headerFields, order, r.content)
  }

  /** Round trip: with well-formed fields and a one-word reason phrase, everything but the cookies comes back. */
  lemma ResponseRoundTrip(r: HTTPResponse, order: seq<string>)
    requires Enumerates(order, r.headerFields) && WellFormedFields(r.headerFields)
    requires Response.OneWord(r.status) && Response.Reparsable(r.status)
    ensures FromData(RawResponse(r, order)) == Ok(r.(cookies := []))
  {
    var sl := Response.Statusline(r.version, r.status);
    var data, h := RawResponse(r, order), RawHeader(sl, r.headerFields, order);
    RawLayout(sl, r.headerFields, order, Some(r.content));
    BytesAtPrefix(h, r.content);
    Response.ReadHeadOf(data, r.version, r.status, r.headerFields, order);
    assert data[|h|..] == r.content;
  }

  /** 404 `"Not Found"`, or any reason phrase with a space, is refused when read back. */
  lemma MultiWordNotReparsed(r: HTTPResponse, order: seq<string>)
    requires (forall i :: 0 <= i < |order| ==> order[i] in r.headerFields) && !Response.OneWord(r.status)
    ensures FromData(RawResponse(r, order)) == Throws(MalformedStatusline)
  {
    var sl := Response.Statusline(r.version, r.status);
    var data, h := RawResponse(r, order), RawHeader(sl, r.headerFields, order);
    RawLayout(sl, r.headerFields, order, Some(r.content));
    BytesAtPrefix(h, r.content);
    Response.ReadHeadMultiWord(data, r.version, r.status, r.headerFields, order);
  }

  /** For well-formed fields and a reparsable status, a response survives the trip exactly when its reason phrase is one word. */
  lemma ReparsedIff(r: HTTPResponse, order: seq<string>)
    requires Enumerates(order, r.headerFields) && WellFormedFields(r.headerFields) && Response.Reparsable(r.status)
    ensures FromData(RawResponse(r, order)) == Ok(r.(cookies := [])) <==> Response.OneWord(r.status)
  {
    if Response.OneWord(r.status) {
      ResponseRoundTrip(r, order);
    } else {
      MultiWordNotReparsed(r, order);
    }
  }

  // ---- constructors -------------------------------------------------------

  /** A freshly built response: no cookies, and fields framing its content. */
  ghost predicate Built(r: HTTPResponse, version: HTTPVersion, status: HttpStatus.HTTPStatus, entries: HeaderFields,
                        content: Bytes, encoding: Option<string>)
  {
    && r.version == version && r.status == status && r.cookies == [] && r.content == content
    && Response.Framed(entries, r.headerFields, content, encoding)
  }

  /** `init(httpVersion:status:entries:with:)` with an `HTTPStatus`: a nil payload is empty content. */
  method PayloadResponse(version: HTTPVersion, status: HttpStatus.HTTPStatus, entries: HeaderFields,
                         payload: Option<Bytes>) returns (r: HTTPResponse)
    ensures Built(r, version, status, entries, Response.Body(payload), None)
  {
    var content := if payload.Some? then payload.value else [];
    var fields := entries;
    if |content| > 0 {
      fields := fields[ContentLength := [IntToString(|content|)]];
    }
    r := HTTPResponse(content, version, fields, status, []);
  }

  /** `init(httpVersion:status:entries:text:)`: the UTF-8 text, or empty content for a nil payload. */
  method TextResponse(version: HTTPVersion, status: HttpStatus.HTTPStatus, entries: HeaderFields,
                      payload: Option<string>) returns (r: HTTPResponse)
    ensures Built(r, version, status, entries, if payload.Some? then Encode(payload.value) else [], None)
  {
    var content := if payload.None? then [] else Encode(payload.value);
    var fields := entries;
    if |content| > 0 {
      fields := fields[ContentLength := [IntToString(|content|)]];
    }
    r := HTTPResponse(content, version, fields, status, []);
  }

  /**
   * `init(httpVersion:status:entries:with:)` with an integer code: as with a
   * status, and a non-empty body that `isGzipped` recognises also gets
   * Transfer-Encoding `gzip`.
   */
  method PayloadResponseCode(version: HTTPVersion, code: Int64, entries: HeaderFields,
                             payload: Option<Bytes>, isGzipped: bool) returns (r: HTTPResponse)
    ensures Built(r, version, HttpStatus.FromRaw(code).value, entries, Response.Body(payload),
      if isGzipped then Some(TransferEncoding) else None)
  {
    var content := if payload.Some? then payload.value else [];
    var fields := entries;
    if |content| > 0 {
      fields := fields[ContentLength := [IntToString(|content|)]];
      if isGzipped {
        fields := fields[TransferEncoding := ["gzip"]];
      }
    }
    r := HTTPResponse(content, version, fields, HttpStatus.FromRaw(code).value, []);
  }

  /** `init(httpVersion:status:entries:text:)` with an integer code. */
  method TextResponseCode(version: HTTPVersion, code: Int64, entries: HeaderFields,
                          payload: Option<string>) returns (r: HTTPResponse)
    ensures Built(r, version, HttpStatus.FromRaw(code).value, entries,
      if payload.Some? then Encode(payload.value) else [], None)
  {
    r := TextResponse(version, HttpStatus.FromRaw(code).value, entries, payload);
  }

  /** Content-Length is present exactly when the body has bytes, and then reads back as the byte count. */
  lemma LengthIffNonEmpty(r: HTTPResponse, version: HTTPVersion, status: HttpStatus.HTTPStatus, entries: HeaderFields,
                          encoding: Option<string>)
    requires Built(r, version, status, entries, r.content, encoding) && |r.content| < 0x8000_0000_0000_0000
    requires ContentLength !in entries
    ensures ContentLength in r.headerFields <==> |r.content| > 0
    ensures |r.content| > 0 ==> ParseInt(r.headerFields[ContentLength][0], 10) == Some(|r.content|)
  {
    if |r.content| > 0 {
      Response.FramedLength(entries, r.headerFields, r.content, encoding);
    }
  }

  // ---- cookies ------------------------------------------------------------

  /** Assigning `cookies`: Set-Cookie becomes the descriptions in order; nothing else changes. */
  function SetCookies(resp: HTTPResponse, cookies: seq<Cookies.Cookie>, orders: seq<seq<string>>): (r: HTTPResponse)
    requires Response.CookieOrders(cookies, orders)
    ensures r.cookies == cookies
    ensures SetCookie in r.headerFields && r.headerFields[SetCookie] == Response.CookieDescriptions(cookies, orders)
    ensures forall k :: k != SetCookie ==> (k in r.headerFields <==> k in resp.headerFields)
    ensures forall k :: k != SetCookie && k in resp.headerFields ==> r.headerFields[k] == resp.headerFields[k]
    ensures r.content == resp.content && r.version == resp.version && r.status == resp.status
  {
    resp.(cookies := cookies, headerFields := resp.headerFields[SetCookie := Response.CookieDescriptions(cookies, orders)])
  }
}
