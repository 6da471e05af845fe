/**
 * `HTTPRequest` of the older generation (non-optional content): the request
 * line (section 3.1.1 of RFC 7230), the memberwise initializer that keeps
 * Content-Length in step with the body, `init(data:)`, and the request's
 * `Cookie` header (section 5.4 of RFC 6265).
 */
module Request {
  import opened Wrappers
  import opened Bytes
  import opened Utf8
  import opened Text
  import opened Headers
  import opened HeaderParse
  import opened HttpVersion

  /** `HTTPMethod`, a `String`-backed enum. */
  datatype HTTPMethod = Get | Head | Post | Put | Delete | Connect | Options | Trace | Patch

  /** `rawValue` */
  function MethodRaw(m: HTTPMethod): string
  {
    match m
    case Get => "GET"
    case Head => "HEAD"
    case Post => "POST"
    case Put => "PUT"
    case Delete => "DELETE"
    case Connect => "CONNECT"
    case Options => "OPTIONS"
    case Trace => "TRACE"
    case Patch => "PATCH"
  }

  /** `HTTPMethod(rawValue:)`: exact, case-sensitive match of one of the nine names. */
  function MethodFromRaw(s: string): Option<HTTPMethod>
  {
    if s == "GET" then Some(Get)
    else if s == "HEAD" then Some(Head)
    else if s == "POST" then Some(Post)
    else if s == "PUT" then Some(Put)
    else if s == "DELETE" then Some(Delete)
    else if s == "CONNECT" then Some(Connect)
    else if s == "OPTIONS" then Some(Options)
    else if s == "TRACE" then Some(Trace)
    else if s == "PATCH" then Some(Patch)
    else None
  }

  /** `HTTPMethod(rawValue:)` and `rawValue` are inverse: a name is accepted exactly when it is some method's raw value. */
  lemma MethodFromRawIff(s: string, m: HTTPMethod)
    ensures MethodFromRaw(s) == Some(m) <==> s == MethodRaw(m)
  {
  }

  /** A method name holds no space and no CR. */
  lemma MethodRawPlain(m: HTTPMethod)
    ensures ' ' !in MethodRaw(m) && '\r' !in MethodRaw(m)
  {
  }

  datatype HTTPRequest = HTTPRequest(
    version: HTTPVersion,
    content: Bytes,
    httpMethod: HTTPMethod,
    uri: string,
    headerFields: HeaderFields)

  /** `statusline`: the request line without its CR LF. */
  function Statusline(r: HTTPRequest): string
  {
    MethodRaw(r.httpMethod) + " " + r.uri + " " + StringVal(r.version)
  }

  /** A request line whose uri holds no space splits on single spaces into method, uri and version. */
  lemma StatuslineTokens(r: HTTPRequest)
    requires ' ' !in r.uri
    ensures Split(Statusline(r), " ") == [MethodRaw(r.httpMethod), r.uri, StringVal(r.version)]
  {
    var a, u, v := MethodRaw(r.httpMethod), r.uri, StringVal(r.version);
    MethodRawPlain(r.httpMethod);
    StringValPlain(r.version);
    assert Statusline(r) == a + [' '] + (u + [' '] + v);
    SplitCons(a, ' ', u + [' '] + v);
    SplitCons(u, ' ', v);
    SplitFree(v, ' ');
  }

  /**
   * `init(version:method:resource:content:additionalInfo:)`: given content,
   * the body is that content and `Content-Length` is set to its byte count,
   * replacing any list held under exactly that key.
   */
  function Make(version: HTTPVersion, httpMethod: HTTPMethod, resource: string, content: Option<Bytes>, additionalInfo: HeaderFields): HTTPRequest
  {
    match content
    case None => HTTPRequest(version, [], httpMethod, resource, additionalInfo)
    case Some(c) => HTTPRequest(version, c, httpMethod, resource, additionalInfo[ContentLength := [IntToString(|c|)]])
  }

  /**
   * The initializer keeps Content-Length in step with the body: with content
   * (even zero bytes) the one `Content-Length` value reads back as the byte
   * count, and no other field changes; without content the body is empty
   * and the fields are exactly the ones passed in.
   */
  lemma MakeContentLength(version: HTTPVersion, httpMethod: HTTPMethod, resource: string, content: Option<Bytes>, additionalInfo: HeaderFields)
    ensures var r := Make(version, httpMethod, resource, content, additionalInfo);
      && r.version == version && r.httpMethod == httpMethod && r.uri == resource
      && (content.None? ==> r.content == [] && r.headerFields == additionalInfo)
      && (content.Some? ==>
            && r.content == content.value
            && ContentLength in r.headerFields && |r.headerFields[ContentLength]| == 1
            && (|content.value| < 0x8000_0000_0000_0000 ==> ParseInt(r.headerFields[ContentLength][0], 10) == Some(|content.value|))
            && (forall k :: k != ContentLength ==> (k in r.headerFields <==> k in additionalInfo)))
            && (forall k :: k != ContentLength && k in additionalInfo ==> r.headerFields[k] == additionalInfo[k])
  {
    if content.Some? && |content.value| < 0x8000_0000_0000_0000 {
      ParseIntToString(|content.value|);
    }
  }

  // ---- init(data:) ------------------------------------------------------

  /**
   * `init(data:)`: the first line, read up to CR LF and decoded as UTF-8,
   * is the request line; the header block follows it and the content is
   * every byte after the empty line.
   */
  function FromData(data: Bytes): Outcome<HTTPRequest>
  {
    match NextSegment(data, 0)
    case None => Throws(HeaderContainsNonStringLiterial)
    case Some((statuslineb, cursor)) =>
      match Decode(statuslineb)
      case None => Throws(HeaderContainsNonStringLiterial)
      case Some(statusline) => FromStatusline(data, statusline, cursor)
  }

  /**
   * The request line split on single spaces: exactly three tokens, a known
   * method (checked first) and a version; `malformedStatusline` otherwise.
   */
  function FromStatusline(data: Bytes, statusline: string, cursor: nat): Outcome<HTTPRequest>
    requires cursor <= |data|
  {
    var comps := Split(statusline, " ");
    if |comps| != 3 then Throws(MalformedStatusline)
    else match MethodFromRaw(comps[0])
      case None => Throws(MalformedStatusline)
      case Some(httpMethod) =>
        match FromString(comps[2])
        case Trap => Trap
        case Throws(_) => Throws(MalformedStatusline)
        case Ok(None) => Throws(MalformedStatusline)
        case Ok(Some(version)) => WithHeaders(data, cursor, httpMethod, comps[1], version)
  }

  /** The header block read from `cursor`, into empty fields; the rest of the data is the content. */
  function WithHeaders(data: Bytes, cursor: nat, httpMethod: HTTPMethod, uri: string, version: HTTPVersion): Outcome<HTTPRequest>
    requires cursor <= |data|
  {
    match ParseLines(data, cursor, map[])
    case Ok((fields, end)) => Ok(HTTPRequest(version, data[end..], httpMethod, uri, fields))
    case Throws(e) => Throws(e)
  }

  /** `init(data:)`, field by field, over the shared header loop. */
  method InitFromData(data: Bytes) returns (r: Outcome<HTTPRequest>)
    ensures r == FromData(data)
  {
    var statuslineb := NextSegment(data, 0);
    if statuslineb.None? {
      return Throws(HeaderContainsNonStringLiterial);
    }
    var statusline := Decode(statuslineb.value.0);
    if statusline.None? {
      return Throws(HeaderContainsNonStringLiterial);
    }
    var statuslineComponents := Split(statusline.value, " ");
    if |statuslineComponents| != 3 {
      return Throws(MalformedStatusline);
    }
    var httpMethod := MethodFromRaw(statuslineComponents[0]);
    if httpMethod.None? {
      return Throws(MalformedStatusline);
    }
    var version := FromString(statuslineComponents[2]);
    if version.Trap? {
      return Trap;
    }
    if !(version.Ok? && version.value.Some?) {
      return Throws(MalformedStatusline);
    }
    var parsed := ParseHeaderFieldsLegacy(data, statuslineb.value.1, map[]);
    if parsed.Throws? {
      return Throws(parsed.error);
    }
    r := Ok(HTTPRequest(version.value.value, parsed.value.1, httpMethod.value, statuslineComponents[1], parsed.value.0));
  }

  /** `"GET /"` has two space-separated tokens, so it is a malformed request line. */
  lemma TwoTokensMalformed(data: Bytes, cursor: nat)
    requires cursor <= |data|
    ensures FromStatusline(data, "GET /", cursor) == Throws(MalformedStatusline)
  {
    assert "GET /" == "GET" + [' '] + "/";
    SplitCons("GET", ' ', "/");
    SplitFree("/", ' ');
  }

  /** An unknown method is rejected before the version is looked at. */
  lemma UnknownMethodMalformed(data: Bytes, cursor: nat, a: string, u: string, v: string)
    requires cursor <= |data|
    requires ' ' !in a && ' ' !in u && ' ' !in v && MethodFromRaw(a).None?
    ensures FromStatusline(data, a + " " + u + " " + v, cursor) == Throws(MalformedStatusline)
  {
    assert a + " " + u + " " + v == a + [' '] + (u + [' '] + v);
    SplitCons(a, ' ', u + [' '] + v);
    SplitCons(u, ' ', v);
    SplitFree(v, ' ');
  }

  // ---- round trip ---------------------------------------------------------

  /** `raw` of a request: the request line, the header block, then the content. */
  function RawRequest(r: HTTPRequest, order: seq<string>): Bytes
    requires forall i :: 0 <= i < |order| ==> order[i] in r.headerFields
  {
    Raw(Statusline(r), r.headerFields, order, r.content)
  }

  /** A request that survives serialisation: a uri without space or CR, and well-formed header fields. */
  predicate Serialisable(r: HTTPRequest)
  {
    ' ' !in r.uri && NoCR(r.uri) && WellFormedFields(r.headerFields)
  }

  /** A request line without CR: every token is free of it. */
  lemma StatuslineNoCR(r: HTTPRequest)
    requires NoCR(r.uri)
    ensures NoCR(Statusline(r))
  {
    MethodRawPlain(r.httpMethod);
    StringValPlain(r.version);
  }

  /** The first line of any data decodes to `statusline` and ends at `cursor`. */
  lemma FromDataStart(data: Bytes, statuslineb: Bytes, statusline: string, cursor: nat)
    requires NextSegment(data, 0) == Some((statuslineb, cursor)) && Decode(statuslineb) == Some(statusline)
    ensures cursor <= |data|
    ensures FromData(data) == FromStatusline(data, statusline, cursor)
  {
  }

  /** The request line of a request with a space-free uri is read back to its method, uri and version. */
  lemma FromStatuslineOf(data: Bytes, r: HTTPRequest, cursor: nat)
    requires cursor <= |data| && ' ' !in r.uri
    ensures FromStatusline(data, Statusline(r), cursor) == WithHeaders(data, cursor, r.httpMethod, r.uri, r.version)
  {
    StatuslineTokens(r);
    MethodFromRawIff(MethodRaw(r.httpMethod), r.httpMethod);
    StringValRoundTrip(r.version);
  }

  /** Serialised data begins with the raw header, then the content. */
  lemma RawRequestLayout(r: HTTPRequest, order: seq<string>)
    requires forall i :: 0 <= i < |order| ==> order[i] in r.headerFields
    ensures RawRequest(r, order) == RawHeader(Statusline(r), r.headerFields, order) + r.content
  {
    RawLayout(Statusline(r), r.headerFields, order, Some(r.content));
  }

  /** The header block of the serialised request is read back, and the content is what follows it. */
  lemma WithHeadersOf(data: Bytes, cursor: nat, r: HTTPRequest, end: nat)
    requires cursor <= |data| && end <= |data|
    requires ParseLines(data, cursor, map[]) == Ok((r.headerFields, end)) && data[end..] == r.content
    ensures WithHeaders(data, cursor, r.httpMethod, r.uri, r.version) == Ok(r)
  {
  }

  /**
   * Round trip of the request codec: for any iteration order of the fields,
   * `init(data: raw)` gives back the method, uri, version, header fields
   * and content.
   */
  lemma RequestRoundTrip(r: HTTPRequest, order: seq<string>)
    requires Enumerates(order, r.headerFields) && Serialisable(r)
    ensures FromData(RawRequest(r, order)) == Ok(r)
  {
    var data, sl, m := RawRequest(r, order), Statusline(r), r.headerFields;
    var h := RawHeader(sl, m, order);
    RawRequestLayout(r, order);
    BytesAtPrefix(h, r.content);
    StatuslineNoCR(r);
    ParseRawHeader(data, sl, m, order);
    DecodeEncode(sl);
    var cursor := |Encode(sl)| + 2;
    FromDataStart(data, Encode(sl), sl, cursor);
    FromStatuslineOf(data, r, cursor);
    assert data[|h|..] == r.content;
    WithHeadersOf(data, cursor, r, |h|);
  }

  // ---- cookies --------------------------------------------------------------

  /**
   * The inner loop of `cookies` over one value's `"; "`-segments. The split
   * position `p` is where `"="` first occurs in the whole value, so every
   * segment is cut at that same offset; a segment too short to hold it
   * traps on its out-of-range index.
   */
  function SegmentCookies(segs: seq<string>, p: nat, ret: map<string, string>): Outcome<map<string, string>>
    decreases |segs|
  {
    if |segs| == 0 then Ok(ret)
    else match SegmentCookies(segs[..|segs| - 1], p, ret)
      case Ok(acc) =>
        var seg := segs[|segs| - 1];
        if p + 1 <= |seg| then Ok(acc[seg[..p] := seg[p + 1..]]) else Trap
      case Throws(e) => Throws(e)
      case Trap => Trap
  }

  /** One value of the `Cookie` header: nothing is read from it when it holds no `"="`. */
  function ValueCookies(value: string, ret: map<string, string>): Outcome<map<string, string>>
  {
    match Find(value, "=")
    case None => Ok(ret)
    case Some(p) => SegmentCookies(Split(value, "; "), p, ret)
  }

  /** The outer loop, over the values held under `Cookie`. */
  function EntriesCookies(entries: seq<string>, ret: map<string, string>): Outcome<map<string, string>>
    decreases |entries|
  {
    if |entries| == 0 then Ok(ret)
    else match EntriesCookies(entries[..|entries| - 1], ret)
      case Ok(acc) => ValueCookies(entries[|entries| - 1], acc)
      case Throws(e) => Throws(e)
      case Trap => Trap
  }

  /** `cookies`: empty without a `Cookie` key (exact spelling) or with an empty list. */
  function CookiesOf(m: HeaderFields): Outcome<map<string, string>>
  {
    if CookieEntry !in m || |m[CookieEntry]| == 0 then Ok(map[])
    else EntriesCookies(m[CookieEntry], map[])
  }

  /** Once a segment traps, so does the whole loop. */
  lemma {:induction false} SegmentCookiesTrap(segs: seq<string>, p: nat, ret: map<string, string>, j: nat)
    requires j <= |segs| && SegmentCookies(segs[..j], p, ret) == Trap
    ensures SegmentCookies(segs, p, ret) == Trap
    decreases |segs|
  {
    if j < |segs| {
      var n := |segs| - 1;
      assert segs[..n][..j] == segs[..j];
      SegmentCookiesTrap(segs[..n], p, ret, j);
    } else {
      assert segs[..j] == segs;
    }
  }

  lemma {:induction false} EntriesCookiesTrap(entries: seq<string>, ret: map<string, string>, i: nat)
    requires i <= |entries| && EntriesCookies(entries[..i], ret) == Trap
    ensures EntriesCookies(entries, ret) == Trap
    decreases |entries|
  {
    if i < |entries| {
      var n := |entries| - 1;
      assert entries[..n][..i] == entries[..i];
      EntriesCookiesTrap(entries[..n], ret, i);
    } else {
      assert entries[..i] == entries;
    }
  }

  /** `cookies` with its nested loops over values and segments. */
  method Cookies(req: HTTPRequest) returns (r: Outcome<map<string, string>>)
    ensures r == CookiesOf(req.headerFields)
  {
    if CookieEntry !in req.headerFields || |req.headerFields[CookieEntry]| == 0 {
      return Ok(map[]);
    }
    var cookieEntries := req.headerFields[CookieEntry];
    var ret: map<string, string> := map[];
    var i := 0;
    while i < |cookieEntries|
      invariant 0 <= i <= |cookieEntries|
      invariant EntriesCookies(cookieEntries[..i], map[]) == Ok(ret)
    {
      var cookies := cookieEntries[i];
      var segs := Split(cookies, "; ");
      ghost var before := ret;
      assert cookieEntries[..i + 1][..i] == cookieEntries[..i];
      var j := 0;
      while j < |segs|
        invariant 0 <= j <= |segs|
        invariant Find(cookies, "=").None? ==> ret == before
        invariant Find(cookies, "=").Some? ==> SegmentCookies(segs[..j], Find(cookies, "=").value, before) == Ok(ret)
      {
        var cookie := segs[j];
        var separatorPos := Find(cookies, "=");
        assert segs[..j + 1][..j] == segs[..j];
        if separatorPos.Some? {
          var p := separatorPos.value;
          if p + 1 > |cookie| {
            SegmentCookiesTrap(segs, p, before, j + 1);
            EntriesCookiesTrap(cookieEntries, map[], i + 1);
            return Trap;
          }
          ret := ret[cookie[..p] := cookie[p + 1..]];
        }
        j := j + 1;
      }
      assert segs[..j] == segs;
      i := i + 1;
    }
    assert cookieEntries[..i] == cookieEntries;
    return Ok(ret);
  }

  /** The segment loop never throws, and it traps exactly when some segment is shorter than `p + 1`. */
  lemma {:induction false} SegmentCookiesTrapIff(segs: seq<string>, p: nat, ret: map<string, string>)
    ensures !SegmentCookies(segs, p, ret).Throws?
    ensures SegmentCookies(segs, p, ret).Trap? <==> exists i :: 0 <= i < |segs| && |segs[i]| < p + 1
    decreases |segs|
  {
    if |segs| > 0 {
      var n := |segs| - 1;
      var init := segs[..n];
      SegmentCookiesTrapIff(init, p, ret);
      if SegmentCookies(init, p, ret).Ok? {
        assert forall i :: 0 <= i < n ==> |segs[i]| >= p + 1 by {
          forall i | 0 <= i < n ensures |segs[i]| >= p + 1 {
            assert init[i] == segs[i];
          }
        }
      } else {
        var i :| 0 <= i < n && |init[i]| < p + 1;
        assert segs[i] == init[i];
      }
    }
  }

  /** Segments long enough to cut: the keys are the old keys plus the first `p` characters of each segment. */
  lemma {:induction false} SegmentCookiesKeys(segs: seq<string>, p: nat, ret: map<string, string>)
    requires forall i :: 0 <= i < |segs| ==> p + 1 <= |segs[i]|
    ensures SegmentCookies(segs, p, ret).Ok?
    ensures forall k :: k in SegmentCookies(segs, p, ret).value <==> k in ret || exists i :: 0 <= i < |segs| && segs[i][..p] == k
    decreases |segs|
  {
    if |segs| > 0 {
      var n := |segs| - 1;
      var init := segs[..n];
      assert forall i :: 0 <= i < n ==> init[i] == segs[i];
      SegmentCookiesKeys(init, p, ret);
    }
  }

  /**
   * Segments long enough to cut: a key holds the text after offset `p + 1`
   * of the LAST segment carrying it (a later duplicate overwrites), and keys
   * no segment names keep their old values.
   */
  lemma {:induction false} SegmentCookiesValues(segs: seq<string>, p: nat, ret: map<string, string>)
    requires forall i :: 0 <= i < |segs| ==> p + 1 <= |segs[i]|
    ensures SegmentCookies(segs, p, ret).Ok?
    ensures var r := SegmentCookies(segs, p, ret).value;
      && (forall i :: 0 <= i < |segs| && (forall j :: i < j < |segs| ==> segs[j][..p] != segs[i][..p]) ==>
            segs[i][..p] in r && r[segs[i][..p]] == segs[i][p + 1..])
      && (forall k :: k in ret && (forall i :: 0 <= i < |segs| ==> segs[i][..p] != k) ==> k in r && r[k] == ret[k])
    decreases |segs|
  {
    if |segs| > 0 {
      var n := |segs| - 1;
      var init := segs[..n];
      assert forall i :: 0 <= i < n ==> init[i] == segs[i];
      SegmentCookiesValues(init, p, ret);
    }
  }

  /**
   * What one value's segments do, for every input: the loop traps exactly
   * when some segment is shorter than `p + 1`; otherwise the keys are the
   * old keys plus each segment's first `p` characters, a key keeps the text
   * after offset `p + 1` of the last segment carrying it, and keys no
   * segment names keep their old values.
   */
  lemma SegmentCookiesMeaning(segs: seq<string>, p: nat, ret: map<string, string>)
    ensures !SegmentCookies(segs, p, ret).Throws?
    ensures SegmentCookies(segs, p, ret).Trap? <==> exists i :: 0 <= i < |segs| && |segs[i]| < p + 1
    ensures SegmentCookies(segs, p, ret).Ok? ==>
      forall k :: k in SegmentCookies(segs, p, ret).value <==> k in ret || exists i :: 0 <= i < |segs| && segs[i][..p] == k
    ensures SegmentCookies(segs, p, ret).Ok? ==>
      var r := SegmentCookies(segs, p, ret).value;
      && (forall i :: 0 <= i < |segs| && (forall j :: i < j < |segs| ==> segs[j][..p] != segs[i][..p]) ==>
            segs[i][..p] in r && r[segs[i][..p]] == segs[i][p + 1..])
      && (forall k :: k in ret && (forall i :: 0 <= i < |segs| ==> segs[i][..p] != k) ==> k in r && r[k] == ret[k])
  {
    SegmentCookiesTrapIff(segs, p, ret);
    if forall i :: 0 <= i < |segs| ==> p + 1 <= |segs[i]| {
      SegmentCookiesKeys(segs, p, ret);
      SegmentCookiesValues(segs, p, ret);
    }
  }

  /** A value `k=v` whose key holds no `"="` and which holds no `"; "` yields the one cookie `k: v`. */
  lemma SingleCookie(k: string, v: string, ret: map<string, string>)
    requires '=' !in k && Find(k + "=" + v, "; ").None?
    ensures ValueCookies(k + "=" + v, ret) == Ok(ret[k := v])
  {
    var s := k + "=" + v;
    assert s == k + ['='] + v;
    FindAfterFree(k, '=', v);
    SplitNone(s, "; ");
    assert s[..|k|] == k && s[|k| + 1..] == v;
    var one: seq<string> := [s];
    assert one[..0] == [];
    assert "=" == ['='];
    assert Find(s, "=") == Some(|k|);
    assert Split(s, "; ") == one;
    assert SegmentCookies(one[..0], |k|, ret) == Ok(ret);
    assert SegmentCookies(one, |k|, ret) == Ok(ret[k := v]);
  }

  /** `Cookie: a=b` gives `["a": "b"]`. */
  lemma ExampleOneCookie()
    ensures CookiesOf(map[CookieEntry := ["a=b"]]) == Ok(map["a" := "b"])
  {
    FindAbsent("a" + "=" + "b", "; ");
    SingleCookie("a", "b", map[]);
    assert "a" + "=" + "b" == "a=b";
    assert ["a=b"][..0] == [];
  }

  /** Without an exact `Cookie` key, or with no values under it, there are no cookies. */
  lemma NoCookieEntry(m: HeaderFields)
    requires CookieEntry !in m || |m[CookieEntry]| == 0
    ensures CookiesOf(m) == Ok(map[])
  {
  }

  /** Only the key spelt exactly `Cookie` is read. */
  lemma ExampleLowerCaseKeyIgnored(values: seq<string>)
    ensures CookiesOf(map["cookie" := values]) == Ok(map[])
  {
  }

  /** A value of two `"; "`-separated segments, `"="` first at offset `p` of the whole value. */
  lemma ValueCookiesTwo(x: string, y: string, p: nat, ret: map<string, string>)
    requires ';' !in x && ';' !in y && Find(x + "; " + y, "=") == Some(p)
    ensures ValueCookies(x + "; " + y, ret) == SegmentCookies([x, y], p, ret)
  {
    SplitSemicolon(x, y);
    FindAbsent(y, "; ");
    SplitNone(y, "; ");
    assert Split(x + "; " + y, "; ") == [x, y];
  }

  /** Two segments cut at the same offset, the second written last; a short one traps. */
  lemma SegmentCookiesTwo(x: string, y: string, p: nat, ret: map<string, string>)
    ensures SegmentCookies([x, y], p, ret) ==
      if p + 1 <= |x| && p + 1 <= |y| then Ok(ret[x[..p] := x[p + 1..]][y[..p] := y[p + 1..]]) else Trap
  {
    var segs: seq<string> := [x, y];
    assert segs[..1] == [x] && segs[..1][..0] == [];
    assert SegmentCookies(segs[..1][..0], p, ret) == Ok(ret);
    assert SegmentCookies(segs[..1], p, ret) == if p + 1 <= |x| then Ok(ret[x[..p] := x[p + 1..]]) else Trap;
  }

  /** With `"="` at offset 1 of the value, `"a=1; a=2"` cuts both segments there; the later `a` wins. */
  lemma ExampleLaterOverwrites()
    ensures ValueCookies("a=1; a=2", map[]) == Ok(map["a" := "2"])
  {
    var x, y := "a=1", "a=2";
    assert x + "; " + y == "a" + ['='] + "1; a=2" == "a=1; a=2";
    FindAfterFree("a", '=', "1; a=2");
    ValueCookiesTwo(x, y, 1, map[]);
    SegmentCookiesTwo(x, y, 1, map[]);
    assert x[..1] == "a" && y[..1] == "a" && y[2..] == "2";
    var one: map<string, string> := map["a" := "1"];
    assert one["a" := "2"] == map["a" := "2"];
  }

  /**
   * The offset of `"="` comes from the whole value: in `"ab=1; c=2"` it is
   * 2, so the second segment is cut into the key `"c="` and an empty value.
   */
  lemma ExampleOffsetFromWholeValue()
    ensures ValueCookies("ab=1; c=2", map[]) == Ok(map["ab" := "1", "c=" := ""])
  {
    var x, y := "ab=1", "c=2";
    assert x + "; " + y == "ab" + ['='] + "1; c=2" == "ab=1; c=2";
    FindAfterFree("ab", '=', "1; c=2");
    ValueCookiesTwo(x, y, 2, map[]);
    SegmentCookiesTwo(x, y, 2, map[]);
    assert x[..2] == "ab" && x[3..] == "1" && y[..2] == "c=" && y[3..] == "";
  }

  /** A segment shorter than that offset runs the index out of range: `"ab=1; c"` traps. */
  lemma ExampleShortSegmentTraps()
    ensures ValueCookies("ab=1; c", map[]) == Trap
  {
    var x, y := "ab=1", "c";
    assert x + "; " + y == "ab" + ['='] + "1; c" == "ab=1; c";
    FindAfterFree("ab", '=', "1; c");
    ValueCookiesTwo(x, y, 2, map[]);
    SegmentCookiesTwo(x, y, 2, map[]);
  }
}
