/**
 * `HTTPResponse` of the newest generation, whose content is optional: the
 * status line (section 3.1.2 of RFC 7230), `init(data:)`, the text and data
 * constructors that keep Content-Length in step with the body (section
 * 3.3.2 of RFC 7230), and the `cookies` observer that rewrites Set-Cookie.
 * The status-line reader here is shared with the older generation.
 */
module Response {
  import opened Wrappers
  import opened Bytes
  import opened Utf8
  import opened Text
  import opened Headers
  import opened HeaderParse
  import opened HttpVersion
  import HttpStatus
  import Cookies
  import ReasonPhrases

  /** `ContentSource`: where a file-backed body came from. */
  datatype ContentSource = StaticFile(path: string)

  datatype HTTPResponse = HTTPResponse(
    content: Option<Bytes>,
    contentSource: Option<ContentSource>,
    version: HTTPVersion,
    headerFields: HeaderFields,
    status: HttpStatus.HTTPStatus,
    cookies: seq<Cookies.Cookie>)

  /** The bytes a response carries: none when its content is nil. */
  function Body(content: Option<Bytes>): Bytes
  {
    if content.Some? then content.value else []
  }

  // ---- status line ------------------------------------------------------

  /** `statusline`: version, decimal code and reason phrase, separated by single spaces. */
  function Statusline(version: HTTPVersion, status: HttpStatus.HTTPStatus): string
  {
    StringVal(version) + " " + IntToString(HttpStatus.Raw(status)) + " " + HttpStatus.Description(status)
  }

  /** A reason phrase that stays one token of the status line. */
  predicate OneWord(status: HttpStatus.HTTPStatus)
  {
    ' ' !in HttpStatus.Description(status)
  }

  /** A status that `HTTPStatus(raw:)` rebuilds from its own code. */
  predicate Reparsable(status: HttpStatus.HTTPStatus)
  {
    HttpStatus.FromRaw(HttpStatus.Raw(status)) == Some(status)
  }

  /**
   * The status line as `init(data:)` reads it: exactly three space-separated
   * tokens (else `malformedStatusline`), then an integer code and a version
   * (else `malformedEntry`); a version without `.` traps.
   */
  function ParseStatusline(statusline: string): Outcome<(HTTPVersion, HttpStatus.HTTPStatus)>
  {
    var comps := Split(statusline, " ");
    if |comps| != 3 then Throws(MalformedStatusline)
    else match ParseInt(comps[1], 10)
      case None => Throws(MalformedEntry)
      case Some(code) =>
        match FromString(comps[0])
        case Trap => Trap
        case Ok(Some(version)) => Ok((version, HttpStatus.FromRaw(code).value))
        case _ => Throws(MalformedEntry)
  }

  /** A status line holds no CR, so it is read back whole as the first line. */
  lemma StatuslineNoCR(version: HTTPVersion, status: HttpStatus.HTTPStatus)
    ensures NoCR(Statusline(version, status))
  {
    StringValPlain(version);
    IntToStringPlain(HttpStatus.Raw(status));
    ReasonPhrases.DescriptionNoCR(status);
  }

  /** Two space-free tokens, each followed by a space, split off as the first two pieces. */
  lemma SplitTwoTokens(a: string, b: string, rest: string)
    requires ' ' !in a && ' ' !in b
    ensures Split(a + " " + b + " " + rest, " ") == [a, b] + Split(rest, " ")
  {
    assert a + " " + b + " " + rest == a + [' '] + (b + [' '] + rest);
    SplitCons(a, ' ', b + [' '] + rest);
    SplitCons(b, ' ', rest);
  }

  /** Split on spaces, a status line is the version, the code, then the pieces of the reason phrase. */
  lemma StatuslineSplit(version: HTTPVersion, status: HttpStatus.HTTPStatus)
    ensures Split(Statusline(version, status), " ") ==
      [StringVal(version), IntToString(HttpStatus.Raw(status))] + Split(HttpStatus.Description(status), " ")
  {
    StringValPlain(version);
    IntToStringPlain(HttpStatus.Raw(status));
    SplitTwoTokens(StringVal(version), IntToString(HttpStatus.Raw(status)), HttpStatus.Description(status));
  }

  /** A one-word status line of a reparsable status is read back to its version and status. */
  lemma ParseStatuslineOf(version: HTTPVersion, status: HttpStatus.HTTPStatus)
    requires OneWord(status) && Reparsable(status)
    ensures ParseStatusline(Statusline(version, status)) == Ok((version, status))
  {
    StatuslineSplit(version, status);
    SplitFree(HttpStatus.Description(status), ' ');
    ParseIntToString(HttpStatus.Raw(status));
    StringValRoundTrip(version);
  }

  /** A reason phrase of several words, such as `"Not Found"`, makes more than three tokens. */
  lemma MultiWordRejected(version: HTTPVersion, status: HttpStatus.HTTPStatus)
    requires !OneWord(status)
    ensures ParseStatusline(Statusline(version, status)) == Throws(MalformedStatusline)
  {
    StatuslineSplit(version, status);
    SpaceSplits(HttpStatus.Description(status));
  }

  /** Text holding a space splits into at least two pieces. */
  lemma SpaceSplits(d: string)
    requires ' ' in d
    ensures |Split(d, " ")| >= 2
  {
    var k :| 0 <= k < |d| && d[k] == ' ';
    assert d[k..k + 1] == " ";
    SplitAtOccurrence(d, " ", k);
  }

  /** Three tokens whose middle one is not an integer: `malformedEntry`, not `malformedStatusline`. */
  lemma BadCodeMalformedEntry(a: string, b: string, c: string)
    requires ' ' !in a && ' ' !in b && ' ' !in c && ParseInt(b, 10).None?
    ensures ParseStatusline(a + " " + b + " " + c) == Throws(MalformedEntry)
  {
    SplitTwoTokens(a, b, c);
    SplitFree(c, ' ');
  }

  /** Three tokens with an integer code and a first token that is no version: `malformedEntry`. */
  lemma BadVersionMalformedEntry(a: string, b: string, c: string)
    requires ' ' !in a && ' ' !in b && ' ' !in c && ParseInt(b, 10).Some? && FromString(a) == Ok(None)
    ensures ParseStatusline(a + " " + b + " " + c) == Throws(MalformedEntry)
  {
    SplitTwoTokens(a, b, c);
    SplitFree(c, ' ');
  }

  // ---- the head of a response -------------------------------------------

  /**
   * The part of `init(data:)` both generations share: the first line, read
   * up to CR LF and decoded as UTF-8 (else `headerContainsNonStringLiterial`),
   * is the status line; the header block follows. The result is the version,
   * the status, the fields and the cursor where the content begins.
   */
  function ReadHead(data: Bytes): (r: Outcome<(HTTPVersion, HttpStatus.HTTPStatus, HeaderFields, nat)>)
    ensures r.Ok? ==> r.value.3 <= |data|
  {
    match NextSegment(data, 0)
    case None => Throws(HeaderContainsNonStringLiterial)
    case Some((statuslineb, cursor)) =>
      match Decode(statuslineb)
      case None => Throws(HeaderContainsNonStringLiterial)
      case Some(statusline) => HeadAfter(data, statusline, cursor)
  }

  /** The status line read, the header block from `cursor`. */
  function HeadAfter(data: Bytes, statusline: string, cursor: nat): (r: Outcome<(HTTPVersion, HttpStatus.HTTPStatus, HeaderFields, nat)>)
    requires cursor <= |data|
    ensures r.Ok? ==> r.value.3 <= |data|
  {
    match ParseStatusline(statusline)
    case Trap => Trap
    case Throws(e) => Throws(e)
    case Ok((version, status)) =>
      match ParseLines(data, cursor, map[])
      case Throws(e) => Throws(e)
      case Ok((fields, end)) => Ok((version, status, fields, end))
  }

  /** Data that begins with a serialised one-word, reparsable head is read back to it. */
  lemma ReadHeadOf(data: Bytes, version: HTTPVersion, status: HttpStatus.HTTPStatus, m: HeaderFields, order: seq<string>)
    requires Enumerates(order, m) && WellFormedFields(m) && OneWord(status) && Reparsable(status)
    requires BytesAt(data, 0, RawHeader(Statusline(version, status), m, order))
    ensures ReadHead(data) == Ok((version, status, m, |RawHeader(Statusline(version, status), m, order)|))
  {
    var sl := Statusline(version, status);
    StatuslineNoCR(version, status);
    ParseRawHeader(data, sl, m, order);
    DecodeEncode(sl);
    ParseStatuslineOf(version, status);
  }

  /** Data that begins with a serialised head whose reason phrase has a space is refused. */
  lemma ReadHeadMultiWord(data: Bytes, version: HTTPVersion, status: HttpStatus.HTTPStatus, m: HeaderFields, order: seq<string>)
    requires (forall i :: 0 <= i < |order| ==> order[i] in m) && !OneWord(status)
    requires BytesAt(data, 0, RawHeader(Statusline(version, status), m, order))
    ensures ReadHead(data) == Throws(MalformedStatusline)
  {
    var sl := Statusline(version, status);
    StatuslineNoCR(version, status);
    RawStartLine(data, sl, m, order);
    DecodeEncode(sl);
    MultiWordRejected(version, status);
  }

  // ---- init(data:) ------------------------------------------------------

  /**
   * `init(data:)`: the head, then `parseHeaderFields(ignoreContent: false)`,
   * so the content is every byte after the empty line; no content source and
   * no cookies.
   */
  function FromData(data: Bytes): Outcome<HTTPResponse>
  {
    match ReadHead(data)
    case Trap => Trap
    case Throws(e) => Throws(e)
    case Ok((version, status, fields, end)) => Ok(HTTPResponse(Some(data[end..]), None, version, fields, status, []))
  }

  /** `init(data:)`, field by field, over the shared header loop. */
  method InitFromData(data: Bytes) returns (r: Outcome<HTTPResponse>)
    ensures r == FromData(data)
  {
    var statuslineb := NextSegment(data, 0);
    if statuslineb.None? {
      return Throws(HeaderContainsNonStringLiterial);
    }
    var statusline := Decode(statuslineb.value.0);
    if statusline.None? {
      return Throws(HeaderContainsNonStringLiterial);
    }
    var statuslineComponents := Split(statusline.value, " ");
    if |statuslineComponents| != 3 {
      return Throws(MalformedStatusline);
    }
    var code := ParseInt(statuslineComponents[1], 10);
    if code.None? {
      return Throws(MalformedEntry);
    }
    var status := HttpStatus.FromRaw(code.value).value;
    var version := FromString(statuslineComponents[0]);
    if version.Trap? {
      return Trap;
    }
    if !(version.Ok? && version.value.Some?) {
      return Throws(MalformedEntry);
    }
    var parsed := ParseHeaderFields(false, None, data, statuslineb.value.1, map[]);
    if parsed.Throws? {
      return Throws(parsed.error);
    }
    r := Ok(HTTPResponse(parsed.value.1, None, version.value.value, parsed.value.0, status, []));
  }

  // ---- round trip ---------------------------------------------------------

  /** `raw`: the raw header, then the content when there is one. */
  function RawResponse(r: HTTPResponse, order: seq<string>): Bytes
    requires forall i :: 0 <= i < |order| ==> order[i] in r.headerFields
  {
    RawOptional(Statusline(r.version, r.status), r.headerFields, order, r.content)
  }

  /**
   * Round trip: a response with well-formed fields and a one-word reason
   * phrase is read back to its version, status, fields and body; a nil
   * content comes back empty, and the cookies and content source, which
   * `raw` does not carry, come back unset.
   */
  lemma ResponseRoundTrip(r: HTTPResponse, order: seq<string>)
    requires Enumerates(order, r.headerFields) && WellFormedFields(r.headerFields)
    requires OneWord(r.status) && Reparsable(r.status)
    ensures FromData(RawResponse(r, order)) ==
      Ok(HTTPResponse(Some(Body(r.content)), None, r.version, r.headerFields, r.status, []))
  {
    var sl := Statusline(r.version, r.status);
    var data, h := RawResponse(r, order), RawHeader(sl, r.headerFields, order);
    RawLayout(sl, r.headerFields, order, r.content);
    BytesAtPrefix(h, Body(r.content));
    ReadHeadOf(data, r.version, r.status, r.headerFields, order);
    assert data[|h|..] == Body(r.content);
  }

  /** A response whose reason phrase has a space does not survive `raw` then `init(data:)`. */
  lemma MultiWordNotReparsed(r: HTTPResponse, order: seq<string>)
    requires (forall i :: 0 <= i < |order| ==> order[i] in r.headerFields) && !OneWord(r.status)
    ensures FromData(RawResponse(r, order)) == Throws(MalformedStatusline)
  {
    var sl := Statusline(r.version, r.status);
    var data, h := RawResponse(r, order), RawHeader(sl, r.headerFields, order);
    RawLayout(sl, r.headerFields, order, r.content);
    BytesAtPrefix(h, Body(r.content));
    ReadHeadMultiWord(data, r.version, r.status, r.headerFields, order);
  }

  /** For well-formed fields and a reparsable status, a response is read back exactly when its reason phrase is one word. */
  lemma ReparsedIff(r: HTTPResponse, order: seq<string>)
    requires Enumerates(order, r.headerFields) && WellFormedFields(r.headerFields) && Reparsable(r.status)
    ensures FromData(RawResponse(r, order)).Ok? <==> OneWord(r.status)
  {
    if OneWord(r.status) {
      ResponseRoundTrip(r, order);
    } else {
      MultiWordNotReparsed(r, order);
    }
  }

  /** 200 `"OK"` survives the trip; 404 `"Not Found"` and 300 `"Multiple Choices "` do not. */
  lemma ExampleReasonPhrases()
    ensures OneWord(HttpStatus.Success(HttpStatus.Success.Ok)) && Reparsable(HttpStatus.Success(HttpStatus.Success.Ok))
    ensures !OneWord(HttpStatus.ClientError(HttpStatus.NotFound))
    ensures !OneWord(HttpStatus.Redirection(HttpStatus.MultipleChoices))
  {
    var nf := HttpStatus.Description(HttpStatus.ClientError(HttpStatus.NotFound));
    assert nf[3] == ' ';
    var mc := HttpStatus.Description(HttpStatus.Redirection(HttpStatus.MultipleChoices));
    assert mc[8] == ' ';
  }

  // ---- constructors -------------------------------------------------------

  /**
   * The header fields built over `entries` for a body: when the body is
   * empty they are the entries exactly; otherwise Content-Length holds the
   * decimal byte count, `encoding` (when given) holds `"gzip"`, and every
   * other key keeps its entry.
   */
  ghost predicate Framed(entries: HeaderFields, fields: HeaderFields, body: Bytes, encoding: Option<string>)
  {
    if |body| == 0 then fields == entries
    else
      && ContentLength in fields && fields[ContentLength] == [IntToString(|body|)]
      && (encoding.Some? ==> encoding.value in fields && fields[encoding.value] == ["gzip"])
      && forall k :: k != ContentLength && encoding != Some(k) ==>
           (k in fields <==> k in entries) && (k in fields ==> fields[k] == entries[k])
  }

  /** The Content-Length that `Framed` promises reads back, with `Int(_:)`, as the byte count. */
  lemma FramedLength(entries: HeaderFields, fields: HeaderFields, body: Bytes, encoding: Option<string>)
    requires Framed(entries, fields, body, encoding) && 0 < |body| < 0x8000_0000_0000_0000
    ensures ContentLength in fields && |fields[ContentLength]| == 1
    ensures ParseInt(fields[ContentLength][0], 10) == Some(|body|)
  {
    ParseIntToString(|body|);
  }

  /** A freshly built response: no content source, no cookies, and fields framing its content. */
  ghost predicate Built(r: HTTPResponse, version: HTTPVersion, status: HttpStatus.HTTPStatus, entries: HeaderFields,
                  content: Option<Bytes>, encoding: Option<string>)
  {
    && r.version == version && r.status == status && r.contentSource == None && r.cookies == []
    && r.content == content
    && Framed(entries, r.headerFields, Body(content), encoding)
  }

  /** The Content-Length and, with `gzip`, Content-Encoding steps shared by every constructor. */
  method Frame(entries: HeaderFields, content: Option<Bytes>, gzip: bool) returns (fields: HeaderFields)
    ensures Framed(entries, fields, Body(content), if gzip then Some(ContentEncoding) else None)
  {
    fields := entries;
    if content.Some? && |content.value| > 0 {
      fields := fields[ContentLength := [IntToString(|content.value|)]];
      if gzip {
        fields := fields[ContentEncoding := ["gzip"]];
      }
    }
  }

  /**
   * `init(httpVersion:status:entries:text:gzip:)`. A nil payload, or one
   * with a non-ASCII character, leaves the content nil and the entries as
   * they are; otherwise the content is the UTF-8 text, or with `gzip` the
   * compressed text `gzipped` (nil when compressing failed).
   */
  method TextResponse(version: HTTPVersion, status: HttpStatus.HTTPStatus, entries: HeaderFields,
                      payload: Option<string>, gzip: bool, gzipped: Option<Bytes>) returns (r: HTTPResponse)
    ensures Built(r, version, status, entries,
      if payload.Some? && IsAscii(payload.value) then (if gzip then gzipped else Some(Encode(payload.value))) else None,
      if gzip then Some(ContentEncoding) else None)
  {
    var content: Option<Bytes> := None;
    if payload.Some? {
      if IsAscii(payload.value) {
        if gzip {
          if gzipped.Some? {
            content := gzipped;
          }
        } else {
          content := Some(Encode(payload.value));
        }
      }
    }
    var fields := Frame(entries, content, gzip);
    r := HTTPResponse(content, None, version, fields, status, []);
  }

  /** The same with an integer code, taken through `HTTPStatus(raw:)`, which never fails. */
  method TextResponseCode(version: HTTPVersion, code: Int64, entries: HeaderFields,
                          payload: Option<string>, gzip: bool, gzipped: Option<Bytes>) returns (r: HTTPResponse)
    ensures Built(r, version, HttpStatus.FromRaw(code).value, entries,
      if payload.Some? && IsAscii(payload.value) then (if gzip then gzipped else Some(Encode(payload.value))) else None,
      if gzip then Some(ContentEncoding) else None)
  {
    r := TextResponse(version, HttpStatus.FromRaw(code).value, entries, payload, gzip, gzipped);
  }

  /**
   * `init(httpVersion:status:entries:with:gzip:)` with an `HTTPStatus`: the
   * payload is the content verbatim, and `gzip` only adds the
   * Content-Encoding header; nothing is compressed.
   */
  method PayloadResponse(version: HTTPVersion, status: HttpStatus.HTTPStatus, entries: HeaderFields,
                         payload: Option<Bytes>, gzip: bool) returns (r: HTTPResponse)
    ensures Built(r, version, status, entries, payload, if gzip then Some(ContentEncoding) else None)
  {
    var fields := Frame(entries, payload, gzip);
    r := HTTPResponse(payload, None, version, fields, status, []);
  }

  /**
   * `init(httpVersion:status:entries:with:gzip:)` with an integer code: with
   * `gzip` the content is the compressed payload `gzipped` (nil when
   * compressing failed), otherwise the payload.
   */
  method PayloadResponseCode(version: HTTPVersion, code: Int64, entries: HeaderFields,
                             payload: Option<Bytes>, gzip: bool, gzipped: Option<Bytes>) returns (r: HTTPResponse)
    ensures Built(r, version, HttpStatus.FromRaw(code).value, entries,
      if payload.Some? && gzip then gzipped else payload,
      if gzip then Some(ContentEncoding) else None)
  {
    var content: Option<Bytes> := None;
    if payload.Some? {
      if gzip {
        if gzipped.Some? {
          content := gzipped;
        }
      } else {
        content := payload;
      }
    }
    var fields := Frame(entries, content, gzip);
    r := HTTPResponse(content, None, version, fields, HttpStatus.FromRaw(code).value, []);
  }

  /** A text response's Content-Length counts the UTF-8 bytes, not the characters. */
  lemma TextLengthIsByteCount(r: HTTPResponse, version: HTTPVersion, status: HttpStatus.HTTPStatus,
                              entries: HeaderFields, p: string)
    requires Built(r, version, status, entries, Some(Encode(p)), None) && 0 < |Encode(p)| < 0x8000_0000_0000_0000
    ensures ContentLength in r.headerFields
    ensures ParseInt(r.headerFields[ContentLength][0], 10) == Some(|Encode(p)|)
    ensures IsAscii(p) ==> |Encode(p)| == |p|
  {
    FramedLength(entries, r.headerFields, Encode(p), None);
    if IsAscii(p) {
      EncodeAscii(p);
    }
  }

  // ---- cookies ------------------------------------------------------------

  /** An iteration order for the attributes of each cookie. */
  predicate CookieOrders(cookies: seq<Cookies.Cookie>, orders: seq<seq<string>>)
  {
    |orders| == |cookies| && forall i :: 0 <= i < |cookies| ==> Enumerates(orders[i], cookies[i].attributes)
  }

  /** `cookies.map { $0.description }` */
  function CookieDescriptions(cookies: seq<Cookies.Cookie>, orders: seq<seq<string>>): (r: seq<string>)
    requires CookieOrders(cookies, orders)
    ensures |r| == |cookies|
    ensures forall i :: 0 <= i < |cookies| ==> r[i] == Cookies.Description(cookies[i], orders[i])
  {
    if |cookies| == 0 then []
    else
      var n := |cookies| - 1;
      CookieDescriptions(cookies[..n], orders[..n]) + [Cookies.Description(cookies[n], orders[n])]
  }

  /**
   * Assigning `cookies`: the observer sets Set-Cookie to the cookies'
   * descriptions in order; no other field and no other header changes.
   */
  function SetCookies(resp: HTTPResponse, cookies: seq<Cookies.Cookie>, orders: seq<seq<string>>): (r: HTTPResponse)
    requires CookieOrders(cookies, orders)
    ensures r.cookies == cookies
    ensures SetCookie in r.headerFields && r.headerFields[SetCookie] == CookieDescriptions(cookies, orders)
    ensures forall k :: k != SetCookie ==> (k in r.headerFields <==> k in resp.headerFields)
    ensures forall k :: k != SetCookie && k in resp.headerFields ==> r.headerFields[k] == resp.headerFields[k]
    ensures r.content == resp.content && r.contentSource == resp.contentSource
    ensures r.version == resp.version && r.status == resp.status
  {
    resp.(cookies := cookies, headerFields := resp.headerFields[SetCookie := CookieDescriptions(cookies, orders)])
  }

  /**
   * After assigning `cookies`, the i-th Set-Cookie value begins with the
   * i-th cookie's `key=val`, and for a key and value without `;` it reads
   * back on `"; "` as that pair and one piece per attribute.
   */
  lemma SetCookieValues(resp: HTTPResponse, cookies: seq<Cookies.Cookie>, orders: seq<seq<string>>, i: nat)
    requires CookieOrders(cookies, orders) && i < |cookies|
    ensures var vals := SetCookies(resp, cookies, orders).headerFields[SetCookie];
      && |vals| == |cookies|
      && HasPrefix(vals[i], cookies[i].key + "=" + cookies[i].val)
      && (';' !in cookies[i].key && ';' !in cookies[i].val ==>
            |Split(vals[i], "; ")| == 1 + |cookies[i].attributes|)
  {
    Cookies.DescriptionStart(cookies[i], orders[i]);
    if ';' !in cookies[i].key && ';' !in cookies[i].val {
      Cookies.DescriptionPieces(cookies[i], orders[i]);
    }
  }
}
