# SXF97 HTTP core, modelled in Dafny

SXF97 is a small HTTP/1.1 library written in Swift. It has a request and
response codec, a chunked-body reader for its one-shot client, a resource
resolver for a static file server, and an exact-match API router. The code
comes in three generations:

- the oldest is `HTTP.swift`;
- the older one is `Http.swift`, `Request.swift` and `Response.swift`, where the content is never nil;
- the newest is `pkg_http*.swift` and `spartanX+oneshot.swift`, where the content is optional, the header parser has an `ignoreContent` flag, and messages have a `rawHeader`.

This project models that core as Dafny modules:

| module | what it models |
|---|---|
| `Wrappers` | `Option`, the three `HTTPErrors`, and `Outcome`. An `Outcome` is a value, a thrown error, or a Swift runtime trap. Traps are modelled explicitly, for example an index out of range. |
| `Bytes` | `Data` as byte sequences, and the assumed `DataReader.nextSegmentOfData(separatedBy: crlf)`. |
| `Utf8` | `String(data:encoding:)` and `data(using:)` for UTF-8 and ASCII. |
| `Text` | `components(separatedBy:)`, `range(of:)`, `hasPrefix`, `Int(_:radix:)`, `"\(i)"`, and ASCII case-insensitive comparison. `hasPrefix` follows the Swift 3 standard library the code is written for (`guard let … where`, `FileManager.default()`): the empty string is a prefix of nothing. |
| `Headers` | The header multimap: `appendHeader`, `expandHeader`, `valueOf`, `exist`, `raw` and `rawHeader`. |
| `HeaderParse` | The `parseHeaderFields` loop of all three generations, and the header round trip. |
| `HttpVersion` | `HTTPVersion.stringVal`, `init?(str:)` and `default`. |
| `HttpStatus` | The status catalogue: `init?(raw:)`, `raw`, `description`, and the five category enums with their implicit `.other`. |
| `ReasonPhrases` | Proofs that no reason phrase holds a CR. |
| `Cookies` | `Cookie.description`, `attributeToString` and `CommonCookieAttributes`. |
| `Request` | `HTTPRequest`: `statusline`, the memberwise initializer, `init(data:)` and `cookies`. |
| `Response` | The newest `HTTPResponse`: `statusline`, `init(data:)`, the text and payload constructors, and the `cookies` observer. |
| `LegacyResponse` | The older `HTTPResponse` of `Response.swift`. |
| `Chunked` | The nested `readChunked` decoder, and the reassembly loop of both `oneshot` generations. |
| `FileSystem` | `expandToFullPath` over an abstract disk, and `SXResoucesConfig` with `contentIsRestricted`, `contents(at:isDirectory:)` and `resource(atPath:)`. |
| `Router` | `SXRouter`, a class whose `dict` the `Register` method updates in place. |

Swift dictionaries have no specified iteration order. Wherever the source
iterates a dictionary, the model takes the order as a parameter `order`, with
`Enumerates(order, m)`: every key exactly once. The properties hold for every
such order. Loops of the source are methods with loop invariants, each proved
equal to a recursive specification function, and the lemmas are stated about
those functions.

A few lemmas pin one literal input, such as those named `Example…`,
`PrefixIsTextual`, `ParentOfTrailingSlash`, `EscapeExample` and
`Router.ExactMatch`. They illustrate a general lemma next to them, for
example `SegmentCookiesMeaning`, `ChunkRead`, `DrainCollects` or
`EscapeRestricted`. The general lemma is the one that states the property.

## Model

| member | source | states |
|---|---|---|
| Bytes.NextSegmentSpec | Sources/pkg_http.swift:128 | The segment read is every byte before the first CR LF after the cursor, and the cursor moves past that CR LF; there is no segment exactly when no CR LF remains. |
| Bytes.NextSegmentAt | Sources/Request.swift:60 | When a segment without CR and then CR LF sit at the cursor, that segment is what is read, and the cursor lands right after it. |
| Utf8.DecodeEncode | Sources/pkg_http.swift:129 | UTF-8 decoding of the UTF-8 encoding of any text gives that text back. |
| Utf8.AsciiDecode | Sources/Http.swift:84 | ASCII decoding succeeds exactly when every byte is below 0x80, and then gives one character per byte with the same code. |
| Utf8.EncodeAscii | Sources/pkg_http_response.swift:143 | ASCII text encodes to its own character codes, one byte per character. |
| Text.SplitJoin | Sources/HTTPVersion.swift:46 | `components(separatedBy:)` loses nothing: joining the pieces with the separator gives the original text. |
| Text.SplitPiecesFree | Sources/HTTPVersion.swift:46 | No piece of a split contains the separator. |
| Text.SplitCons | Sources/Request.swift:74 | Split on one character, the first piece is the text before the first occurrence, and the other pieces are the split of the rest. |
| Text.FindFrom | Sources/pkg_http.swift:139 | `range(of:)` finds the first occurrence, and finds none when there is none. |
| Text.ParseIntToString | Sources/pkg_http_response.swift:73 | `Int("\(i)") == i` for every 64-bit integer. |
| Headers.AppendHeaderSpec | Sources/pkg_http.swift:85-91 | The keys are the old keys plus `field`. `field` holds its old list (or nothing) followed by `val`. Every other key keeps its list. |
| Headers.AppendOtherCasing | Sources/pkg_http.swift:85-91 | Insertion matches the exact key: appending under a new casing of an existing key leaves that key alone and adds a second key. |
| Headers.ExpandHeaderCons | Sources/pkg_http.swift:72-74 | An empty list emits nothing; otherwise the first value's `key: value` line comes first and the other values' lines follow. |
| Headers.ExpandHeaderSnoc | Sources/Http.swift:142-144 | One more value adds its line at the end. |
| Headers.RawLayout | Sources/pkg_http.swift:107-120 | `rawHeader` is the status line, CR LF, the header lines, then CR LF. `raw` is `rawHeader` followed by the content when there is content, and is `rawHeader` alone when there is none. |
| Headers.FirstCaseMatch | Sources/Http.swift:147-151 | The result is the position of the first key, in iteration order, that equals the query ignoring case, or none when no key does. |
| Headers.ValueOf | Sources/pkg_http.swift:76-83 | The early-return loop returns the values of the first key met that equals `entry` ignoring case, or nil. |
| Headers.LookupMeaning | Sources/pkg_http.swift:76-83 | `valueOf` is nil exactly when no key matches ignoring case. Otherwise it is the values of some matching key, and it is the values of the only matching key whatever the iteration order. |
| Headers.AppendThenLookup | Sources/pkg_http.swift:76-91 | After `appendHeader`, a lookup under any casing of `field` that matches no other key sees the old values followed by the appended one. |
| Headers.Exist | Sources/pkg_http.swift:93-105 | The loop returns true exactly when the field found by `valueOf` holds a value equal to `val` ignoring case. |
| Headers.ExistWholeValue | Sources/Http.swift:155-167 | The comparison is on whole values: `gzip, chunked` does not count as holding `chunked`, while `Chunked` under `transfer-encoding` does. |
| HeaderParse.ParseLines | Sources/pkg_http.swift:126-152 | Header parsing never traps, and on success its cursor lies past at least the closing CR LF and within the data. |
| HeaderParse.ReadHeaderLines | Sources/pkg_http.swift:126-152 | The `repeat … while` loop returns exactly what the recursive header reader `ParseLines` returns. |
| HeaderParse.ParseHeaderFields | Sources/pkg_http.swift:122-157 | Errors of the loop are thrown unchanged. On success, the fields are those read; with `ignoreContent` the content is left as it was, otherwise it is every byte after the empty line. |
| HeaderParse.ParseHeaderFieldsLegacy | Sources/Http.swift:176-209 | The same loop, except that the content always becomes every byte after the empty line. The oldest parser, `HTTP.swift:62-106` (Darwin branch), is the same: every byte after the first empty line, further CR LF lines included, becomes the content. |
| HeaderParse.NoLineEnd | Sources/pkg_http.swift:128-131 | Without a CR LF after the cursor, the parser throws `headerContainsNonStringLiterial`. |
| HeaderParse.UndecodableLine | Sources/Http.swift:182-185 | A line that is not valid UTF-8 throws `headerContainsNonStringLiterial`. |
| HeaderParse.StopsAtEmptyLine | Sources/pkg_http.swift:135-137 | The first empty line ends the block. The fields are unchanged, the cursor is right after it, and nothing after it is read. |
| HeaderParse.LineWithoutSeparator | Sources/pkg_http.swift:139-141 | A non-empty line without `": "` throws `malformedEntry`. |
| HeaderParse.HeaderLine | Sources/pkg_http.swift:143-150 | A line is cut at its first `": "`: the text before it is appended, as the value after it, under that exact key, and parsing goes on after the line. |
| HeaderParse.KeyValueLine | Sources/HTTP.swift:86-97 | A line `key: val` whose key holds no `": "` appends `val` under `key`, and parsing goes on after it. |
| HeaderParse.ParseFrame | Sources/Http.swift:180-206 | A run of `key: val` lines parses to those pairs, appended in arrival order. |
| HeaderParse.AddKeyPairs | Sources/pkg_http.swift:146-150 | The values of a repeated key accumulate in arrival order. |
| HeaderParse.EncodeHeaderText | Sources/pkg_http.swift:117 | The bytes of the header text are the header lines, each line's UTF-8 text followed by CR LF. |
| HeaderParse.ParseHeaderBlock | Sources/pkg_http.swift:116-152 | Header round trip: the serialised block of well-formed fields parses back to exactly those fields, in any iteration order, and the cursor ends right after the closing CR LF. Well-formed means every key has a value, keys hold no `": "`, and nothing holds a CR. |
| HeaderParse.ParseRawHeader | Sources/pkg_http.swift:116-120 | From data that begins with `rawHeader`, the first line read is the encoded status line, and the rest of the block parses to the fields, ending where the content begins. |
| HttpVersion.FromString | Sources/HTTPVersion.swift:41-53 | `init?(str:)` never throws. Text without the `HTTP/` prefix gives nil. A trap happens only with the prefix and no `.` after it. |
| HttpVersion.StringValShape | Sources/HTTPVersion.swift:37-39 | `stringVal` is `HTTP/`, then the decimal major number, `.`, and the decimal minor number. |
| HttpVersion.StringValRoundTrip | Sources/HTTPVersion.swift:37-49 | Parsing `stringVal` gives back the same version, for every pair of 64-bit numbers. |
| HttpVersion.StringValPlain | Sources/HTTPVersion.swift:37-39 | The version text holds no space and no CR. |
| HttpVersion.FromStringPieces | Sources/HTTPVersion.swift:44-48 | After the prefix, the result depends only on the `.`-pieces of the rest. |
| HttpVersion.ExtraPiecesIgnored | Sources/HTTPVersion.swift:46-49 | Pieces after the minor number are ignored. |
| HttpVersion.NoDotTraps | Sources/HTTPVersion.swift:48 | A valid major number with no `.` after it indexes `versions[1]` out of range: a trap. |
| HttpVersion.NoDotNoNumberIsNil | Sources/HTTPVersion.swift:47 | With no `.` and no valid major number, the result is nil before `versions[1]` is reached. |
| HttpVersion.BadPieceIsNil | Sources/HTTPVersion.swift:47-48 | A major or minor piece that is not an integer gives nil. |
| HttpVersion.DefaultIsOneOne | Sources/HTTPVersion.swift:55 | `default` is HTTP/1.1: it prints as `HTTP/1.1` and is what `HTTP/1.1` parses to. |
| HttpVersion.ExampleExtraPiece | Sources/HTTPVersion.swift:46-49 | `HTTP/1.1.7` parses as 1.1. |
| HttpVersion.ExampleNoMinor | Sources/HTTPVersion.swift:48 | `HTTP/1` traps. |
| HttpVersion.ExampleLowerCasePrefix | Sources/HTTPVersion.swift:44-52 | `http/1.1` gives nil: the prefix test is case-sensitive. |
| HttpStatus.FromRaw | Sources/HTTPStatus.swift:94-114 | `init?(raw:)` never returns nil. The category follows the half-open ranges 100..<200 to 500..<600, in both directions, and a code outside them is `unknown(code)`. |
| HttpStatus.InformationalFromRaw | Sources/HTTPStatus.swift:117-137 | `init?(rawValue:)` finds the case whose raw value is the code, exactly when one exists. |
| HttpStatus.SuccessFromRaw | Sources/HTTPStatus.swift:145-155 | The same, for the success codes. |
| HttpStatus.RedirectionFromRaw | Sources/HTTPStatus.swift:191-229 | The same, for the redirection codes. |
| HttpStatus.ClientErrorFromRaw | Sources/HTTPStatus.swift:237-330 | The same, for the client error codes. |
| HttpStatus.ServerErrorFromRaw | Sources/HTTPStatus.swift:338-385 | The same, for the server error codes. |
| HttpStatus.RawOfFromRaw | Sources/HTTPStatus.swift:75-114 | A code survives `HTTPStatus(raw: c)!.raw` when it is listed or lies outside 100..<600. An unlisted code in range becomes `.other`, whose raw value is the implicit successor (103, 209, 309, 452 or 512) and whose reason phrase is `??`. |
| HttpStatus.FromRawOfRaw | Sources/HTTPStatus.swift:75-114 | A status is rebuilt from its own raw value exactly when it is not an `unknown` code inside 100..<600. |
| HttpStatus.UnknownStatus | Sources/HTTPStatus.swift:70-89 | `unknown(c)` has raw value `c`, and its reason phrase is the decimal text of `c`. |
| HttpStatus.Examples | Sources/HTTPStatus.swift:117-235 | 404 comes back as `notFound`. 150 becomes `.other` with raw value 103, and parses to the same status as 103. 300 reads `Multiple Choices ` with a trailing space. 101 reads `Switching Protocol`. 600 and 99 are unknown. |
| ReasonPhrases.DescriptionNoCR | Sources/HTTPStatus.swift:58-73 | No reason phrase holds a CR. |
| Cookies.AttributeIgnored | Sources/pkg_http_cookie.swift:55-58 | `attributeToString` ignores its argument: every attribute prints as the cookie's own `key=val`, or as the bare key when `val` is empty. |
| Cookies.DescriptionShape | Sources/pkg_http_cookie.swift:51-53 | The description is `key=val` followed by exactly one `"; "`-prefixed segment per attribute, in any iteration order. The older `Cookie` of `Response.swift:54-61` prints the same way. |
| Cookies.DescriptionStart | Sources/pkg_http_cookie.swift:52 | The description begins with `key=val`, and is exactly that with no attributes. |
| Cookies.DescriptionPieces | Sources/pkg_http_cookie.swift:51-58 | Split on `"; "`, a description whose key and value hold no `;` is `key=val` followed by one copy of the cookie's own segment per attribute. |
| Cookies.ExampleHttpOnly | Sources/pkg_http_cookie.swift:31-58 | `Cookie("id", "7", httpOnly)` prints as `id=7; id=7`: the flag's name is lost. |
| Cookies.ExampleEmptyValue | Sources/pkg_http_cookie.swift:32-58 | With an empty value, `secure` prints as `id=; id`. |
| Request.MethodFromRawIff | Sources/Http.swift:34-44 | `HTTPMethod(rawValue:)` accepts a name exactly when it is some method's raw value, and then gives that method. |
| Request.StatuslineTokens | Sources/Request.swift:41-43 | A request line whose uri holds no space splits on spaces into the method name, the uri, and the version text. |
| Request.MakeContentLength | Sources/Request.swift:45-54 | With content, even zero bytes, the content is kept and the single Content-Length value reads back as the byte count; no other field changes. Without content, the body is empty and the fields are exactly those passed in. |
| Request.InitFromData | Sources/Request.swift:56-91 | `init(data:)`, written step by step, returns exactly what the request decoder `FromData` returns. |
| Request.TwoTokensMalformed | Sources/Request.swift:74-75 | `GET /` has two tokens and throws `malformedStatusline`. |
| Request.UnknownMethodMalformed | Sources/Request.swift:77-80 | An unknown method throws `malformedStatusline`. |
| Request.FromStatuslineOf | Sources/Request.swift:74-84 | A request line with a space-free uri is read back to its method, its uri (verbatim) and its version. |
| Request.RequestRoundTrip | Sources/Request.swift:41-91 | `init(data: raw)` gives back the method, uri, version, header fields and content, in any iteration order. This holds when the uri holds no space and no CR, and the fields are well-formed. |
| Request.Cookies | Sources/Request.swift:93-104 | The nested loops return exactly what the cookie decoder `CookiesOf` returns. |
| Request.NoCookieEntry | Sources/Request.swift:94 | With no exact `Cookie` key, or an empty list under it, there are no cookies. |
| Request.ExampleLowerCaseKeyIgnored | Sources/Request.swift:94 | A key spelt `cookie` is not read. |
| Request.SegmentCookiesMeaning | Sources/Request.swift:97-101 | The segment loop traps exactly when a segment is shorter than the `=` offset plus one. Otherwise the keys are the old keys plus each segment's prefix up to that offset. A key holds the rest of the last segment that names it, and other keys keep their values. |
| Request.SegmentCookiesTrapIff | Sources/Request.swift:99-100 | The segment loop never throws, and it traps exactly when some segment is too short to cut at the offset. |
| Request.SingleCookie | Sources/Request.swift:97-100 | A value `k=v`, whose key holds no `=` and which holds no `"; "`, adds the one cookie `k: v`. |
| Request.ExampleOneCookie | Sources/Request.swift:93-104 | `Cookie: a=b` gives `["a": "b"]`. |
| Request.ValueCookiesTwo | Sources/Request.swift:97-98 | Two `"; "`-separated segments are both cut at the `=` offset found in the whole value. |
| Request.SegmentCookiesTwo | Sources/Request.swift:99-100 | Two segments are written in order, the second last; a segment that is too short traps. |
| Request.ExampleLaterOverwrites | Sources/Request.swift:97-101 | `a=1; a=2` gives `["a": "2"]`: the later duplicate wins. |
| Request.ExampleOffsetFromWholeValue | Sources/Request.swift:98-100 | In `ab=1; c=2` the offset is 2 for both segments, so the second segment gives the key `c=` with an empty value. |
| Request.ExampleShortSegmentTraps | Sources/Request.swift:98-100 | `ab=1; c` runs the index out of range. |
| Response.StatuslineNoCR | Sources/pkg_http_response.swift:54-56 | A status line holds no CR. |
| Response.StatuslineSplit | Sources/pkg_http_response.swift:54-56 | Split on spaces, the status line is the version, the decimal code, then the words of the reason phrase. |
| Response.ParseStatuslineOf | Sources/pkg_http_response.swift:70-78 | A status line whose reason phrase is one word is read back to its version and status, provided `HTTPStatus(raw:)` rebuilds the status from its code. |
| Response.MultiWordRejected | Sources/pkg_http_response.swift:70-71 | A reason phrase with a space, such as `Not Found`, gives more than three tokens and throws `malformedStatusline`. |
| Response.BadCodeMalformedEntry | Sources/pkg_http_response.swift:73-77 | Three tokens whose middle one is not an integer throw `malformedEntry`, not `malformedStatusline`. |
| Response.BadVersionMalformedEntry | Sources/pkg_http_response.swift:73-77 | Three tokens with an integer code and a first token that is no version throw `malformedEntry`. |
| Response.ReadHeadOf | Sources/pkg_http_response.swift:58-88 | Data that begins with a serialised head (one-word reason phrase, reparsable status, well-formed fields) is read back to its version, status and fields, with the cursor at the end of the head. |
| Response.ReadHeadMultiWord | Sources/pkg_http_response.swift:64-71 | Data that begins with a serialised head whose reason phrase has a space throws `malformedStatusline`. |
| Response.InitFromData | Sources/pkg_http_response.swift:58-88 | `init(data:)`, written step by step, returns exactly what the response decoder `FromData` returns. |
| Response.ResponseRoundTrip | Sources/pkg_http.swift:107-114 | `init(data: raw)` gives back the version, status, fields and body of a response with well-formed fields and a one-word, reparsable status. A nil content comes back empty. The cookies and content source are not carried by `raw`, so they come back unset. |
| Response.MultiWordNotReparsed | Sources/pkg_http_response.swift:70-71 | A response whose reason phrase has a space does not survive `raw` and then `init(data:)`. |
| Response.ReparsedIff | Sources/pkg_http_response.swift:54-88 | For well-formed fields and a reparsable status, a response is read back exactly when its reason phrase is one word. |
| Response.ExampleReasonPhrases | Sources/pkg_http_response.swift:54-56 | 200 `OK` is one word and reparsable; 404 `Not Found` and 300 `Multiple Choices ` are not one word. |
| Response.Frame | Sources/pkg_http_response.swift:206-213 | The header steps shared by the constructors. Content-Length is set to the byte count, and with `gzip` Content-Encoding is set to `gzip`, exactly when there is non-empty content. The entries are otherwise kept. |
| Response.FramedLength | Sources/pkg_http_response.swift:155-162 | The Content-Length a constructor sets is a single value that reads back as the byte count. |
| Response.TextResponse | Sources/pkg_http_response.swift:138-166 | A nil payload, or one with a non-ASCII character, leaves the content nil and the fields equal to the entries. Otherwise the content is the UTF-8 text, or with `gzip` the compressed text, which is nil when compressing fails. |
| Response.TextResponseCode | Sources/pkg_http_response.swift:168-196 | The same, with the status built by `HTTPStatus(raw:)`. |
| Response.PayloadResponse | Sources/pkg_http_response.swift:201-214 | The payload is the content verbatim, and the fields are framed for it. `gzip` adds Content-Encoding but compresses nothing. |
| Response.PayloadResponseCode | Sources/pkg_http_response.swift:216-242 | With `gzip`, the content is the compressed payload (nil when compressing fails); otherwise it is the payload. The fields are framed for that content. |
| Response.TextLengthIsByteCount | Sources/pkg_http_response.swift:150-157 | A text response's Content-Length counts UTF-8 bytes; for ASCII text, that is the character count. |
| Response.CookieDescriptions | Sources/pkg_http_response.swift:45 | One description per cookie, in order. |
| Response.SetCookies | Sources/pkg_http_response.swift:43-47 | Assigning `cookies` sets Set-Cookie to the cookies' descriptions in order. No other header, and no other field, changes. |
| Response.SetCookieValues | Sources/pkg_http_response.swift:43-47 | After the assignment, the i-th Set-Cookie value begins with the i-th cookie's `key=val`, and it splits into one piece per attribute plus one. |
| LegacyResponse.InitFromData | Sources/Response.swift:128-158 | The older `init(data:)` returns exactly what `FromData` returns: the newest generation's head, with the content set to every byte after the empty line. |
| LegacyResponse.ResponseRoundTrip | Sources/Response.swift:81-158 | Serialise-then-parse preserves everything but the cookies, for well-formed fields and a one-word, reparsable status. The content is always appended. |
| LegacyResponse.MultiWordNotReparsed | Sources/Response.swift:140-141 | A reason phrase with a space, such as 404 `Not Found`, throws `malformedStatusline` when read back. |
| LegacyResponse.ReparsedIff | Sources/Response.swift:81-158 | For well-formed fields and a reparsable status, a response survives the trip exactly when its reason phrase is one word. |
| LegacyResponse.PayloadResponse | Sources/Response.swift:85-93 | A nil payload is empty content, and Content-Length is added exactly when the content is non-empty. |
| LegacyResponse.TextResponse | Sources/Response.swift:95-103 | The content is the UTF-8 text, or empty for nil, and the fields equal the entries unless the content is non-empty. |
| LegacyResponse.PayloadResponseCode | Sources/Response.swift:105-116 | As above, and a non-empty body that `isGzipped` recognises also gets Transfer-Encoding `gzip`. |
| LegacyResponse.TextResponseCode | Sources/Response.swift:118-126 | The text constructor with the status built by `HTTPStatus(raw:)`. |
| LegacyResponse.LengthIffNonEmpty | Sources/Response.swift:85-126 | Content-Length is present exactly when the body has bytes, and then reads back as the byte count. |
| LegacyResponse.SetCookies | Sources/Response.swift:71-75 | Assigning `cookies` sets Set-Cookie to the ordered descriptions, and nothing else changes. |
| Chunked.ChunkRead | Sources/spartanX+oneshot.swift:72-85 | The chunk format is the size in ASCII hex, CR LF, the payload, then anything. It reads back as exactly that payload, flagged last exactly when the data ends with `0 CR LF CR LF`. The older decoder, `Http.swift:78-91`, is the same. |
| Chunked.ChunkSizeNotHex | Sources/spartanX+oneshot.swift:76-81 | An ASCII size line that is not hexadecimal throws `malformedEntry`. |
| Chunked.ChunkWithoutSizeLine | Sources/Http.swift:82-87 | Data without a CR LF has no size line, and throws `malformedEntry`. |
| Chunked.ChunkFlag | Sources/spartanX+oneshot.swift:74 | Whenever a chunk is read, its flag is true exactly when the last five bytes are `30 0D 0A 0D 0A`, and its payload fits inside the data. |
| Chunked.ReadChunks | Sources/spartanX+oneshot.swift:98-108 | The first decode, then the `while` loop over later reads, returns exactly what the reassembly function `Reassemble` returns. |
| Chunked.DrainStep | Sources/spartanX+oneshot.swift:100-107 | One turn of the loop passes on the read's flag, and the pool grown by its payload. |
| Chunked.DrainCollects | Sources/Http.swift:105-112 | When the reads, up to the first one flagged last or to the end of the reads, decode to payloads, the pool grows by exactly those payloads in arrival order. Later reads are never consumed. |
| Chunked.DrainFails | Sources/spartanX+oneshot.swift:104 | The first read that fails to decode ends the reassembly with that read's error or trap. |
| Chunked.DrainExtends | Sources/spartanX+oneshot.swift:106 | The gathered pool is never given up: it begins the result. |
| Chunked.ReassembleCollects | Sources/spartanX+oneshot.swift:98-108 | The body is the content's payload followed by those of the later reads, up to the last chunk. |
| Chunked.ExampleOneRead | Sources/spartanX+oneshot.swift:72-108 | `5 CR LF hello CR LF 0 CR LF CR LF` in the first read gives `hello`, and no further read is taken. |
| Chunked.ExampleTwoReads | Sources/spartanX+oneshot.swift:98-108 | `5 CR LF hello CR LF` and then a read of `0 CR LF CR LF` give `hello`. |
| Chunked.Dechunk | Sources/spartanX+oneshot.swift:90-112 | A response whose content is present, whose Transfer-Encoding holds `chunked` (compared ignoring case) and whose content has at least five bytes gets the reassembled body as content, or the reassembly's error. Any other response is returned unchanged. |
| Chunked.DechunkLegacy | Sources/Http.swift:96-115 | The same, for the older response, whose content is never nil. |
| FileSystem.NewConfig | Sources/FileSystem.swift:126-131 | The initializer stores the trusted directories, the restricted paths, the root and `allowDir` as given, and leaves every policy and representation nil. |
| FileSystem.FindFile | Sources/FileSystem.swift:265-284 | A directory that does not open gives nil. A name the directory does not list gives nil. A listed name gives its entry's type, and that type is a symbolic link exactly when the listing says so. |
| FileSystem.NewConfigRestriction | Sources/FileSystem.swift:86-131 | With a fresh configuration, content is restricted exactly when it is a disallowed directory, or it begins with neither the root nor any trusted directory. |
| FileSystem.EmptyRootTrustsNothing | Sources/FileSystem.swift:97-101 | An empty root, with only empty trusted directories, restricts every path, because no path has `""` as a prefix. |
| FileSystem.ParentPath | Sources/FileSystem.swift:158-167 | The `removeLast` and rebuild loop compute `Parent`, which drops the last `/`-piece and joins the non-empty rest with `/`. |
| FileSystem.ParentDropsLast | Sources/FileSystem.swift:158-167 | `..` from `/n1/.../nk` gives `/n1/.../n(k-1)`; from a one-name path it gives `""`. |
| FileSystem.ParentOfRoot | Sources/FileSystem.swift:158-167 | `..` from `/` gives `""`. |
| FileSystem.ParentOfTrailingSlash | Sources/FileSystem.swift:158-167 | `..` from `/srv/` only drops the trailing slash, giving `/srv`. |
| FileSystem.ExpandToFullPath | Sources/FileSystem.swift:135-184 | The `for` loop with `continue` returns exactly `FullPath`. `FullPath` starts at `/` and takes the `/`-components of the path from left to right. |
| FileSystem.AliasFirst | Sources/FileSystem.swift:142-155 | An alias for the component is taken before anything else, even for `""`, `.` and `..`. A full-path alias replaces the current path; any other alias is appended. |
| FileSystem.DotIgnored | Sources/FileSystem.swift:157-170 | Without an alias, `""` and `.` leave the path unchanged. |
| FileSystem.MissingIsEmpty | Sources/FileSystem.swift:172 | A component the current directory does not list makes the result `""`, whatever follows. |
| FileSystem.LinkReplaces | Sources/FileSystem.swift:174-177 | A symbolic link replaces the whole current path by its target. |
| FileSystem.StepPlain | Sources/FileSystem.swift:178-180 | A plain name listed as a non-link entry is appended with a single `/`. |
| FileSystem.ResolveWalk | Sources/FileSystem.swift:138-181 | Without aliases, walking plain names that each directory lists ends at the path they spell. |
| FileSystem.PlainPathResolves | Sources/FileSystem.swift:135-184 | Without aliases, `/a/b/...` made of plain names that each directory lists as non-link entries resolves to itself. |
| FileSystem.UpUndoesDown | Sources/FileSystem.swift:158-180 | Without aliases, stepping into a plain entry and then `..` returns where the walk started. |
| FileSystem.EscapePath | Sources/FileSystem.swift:135-184 | Without aliases, `/a/b/../x` goes down into `/a/b`, back up to `/a`, and ends at `/a/x`. |
| FileSystem.ContentIsRestricted | Sources/FileSystem.swift:86-110 | The early returns and the `trusted` loop return exactly `ContentRestricted`. Content is restricted when it is a directory and directories are not allowed, or the policy says so, or the path starts with neither the root nor any trusted directory. |
| FileSystem.PrefixIsTextual | Sources/FileSystem.swift:97-101 | The prefix tests are on text: `/srv/www-old/key` counts as inside the root `/srv/www`. |
| FileSystem.ContentsOfFile | Sources/FileSystem.swift:48-57 | A file's contents are the disk's bytes for that path, and a missing file has none. |
| FileSystem.ResourceAt | Sources/FileSystem.swift:112-124 | `resource(atPath:)` returns exactly `ResourceOf`, computed from the resolution and restriction loops. |
| FileSystem.ResourceOutcomes | Sources/FileSystem.swift:112-124 | `inavailable` is never returned. The answer is `notfound` exactly when the expansion is empty or names nothing on disk. It is `restricted` exactly when what it names is restricted. Otherwise it is `available` with the contents of the full path. |
| FileSystem.EscapeRestricted | Sources/FileSystem.swift:114-123 | The trust test sees the expanded path. An existing target outside the root and every trusted directory is restricted, with the restricted representation of the full path. |
| FileSystem.EscapeExample | Sources/FileSystem.swift:112-124 | With the root `/a/b`, the request `/../x` resolves to the file `/a/x`, outside the root, and is answered as restricted. |
| FileSystem.EscapeOutside | Sources/FileSystem.swift:97 | `/a/x` does not begin with `/a/b` unless `x` begins with `b`. |
| FileSystem.RestrictedPathsUnused | Sources/FileSystem.swift:44 | `restrictedPaths` is never read: any list gives the same resource. |
| Router.SXRouter.constructor | Sources/ApiRouter.swift:11 | A new router has no routes. |
| Router.SXRouter.Register | Sources/ApiRouter.swift:13-15 | The path now leads to the handler, replacing any earlier one, and every other path keeps its entry. |
| Router.SXRouter.ApiLookup | Sources/ApiRouter.swift:17-23 | The lookup returns the registered handler's answer for the request's path, or nil, calling nothing, when the path has no entry (`Dispatch`). |
| Router.DispatchRegistered | Sources/ApiRouter.swift:13-22 | After registering `p`, a request for `p` gets the new handler's answer. |
| Router.DispatchOthers | Sources/ApiRouter.swift:14 | Registering `p` does not change the answer for any other path. |
| Router.RegisterReplaces | Sources/ApiRouter.swift:14 | Registering a path twice keeps only the second handler. |
| Router.DispatchMissing | Sources/ApiRouter.swift:18-20 | A path with no entry gets nil. |
| Router.ExactMatch | Sources/ApiRouter.swift:18 | Paths match as exact text: a route for `/a` does not answer `/a/`. |
| Router.RegisterThenLookup | Sources/ApiRouter.swift:13-22 | Registering a handler for a request's path, then looking the request up on the same router, gives that handler's answer. |

## Left out

- Socket services and servers (`HttpService.swift`, `Httpserver.swift`, `HTTPServer.swift`) are network I/O and event-loop glue. So are `send(with:using:)`, socket creation, TLS, `write` and `read` inside `oneshot`. The reads `oneshot` performs after the first become the parameter `more`, a finite sequence of non-nil results; a read past it is nil.
- Socket read errors thrown inside the reassembly loop are not modelled; only the decoder's errors and traps are.
- `SXCacheManager` (`FileCache.swift`) is a time-based wrapper over a cache library that is not part of this model.
- The file-backed response constructors depend on that cache and on the disk.
- Gzip compression and `isGzipped` are foreign calls. The compressed bytes, or nil when compression fails, and the `isGzipped` flag are parameters.
- `DataReader` is not part of this model. `nextSegmentOfData(separatedBy: crlf)` is assumed to return the bytes before the next CR LF and move the cursor past it, or nil when no CR LF remains.
- The `readdir_r` loop of `findFile_r` is a lookup in the disk's listing. A directory lists each name once, so the order of entries does not matter.
- `opendir`, `readdir_r`, `readlink`, `fileExists` and `FileManager.contents` are replaced by an abstract `Disk` value. The value holds directory entries with their kinds, link targets, existence with the directory flag, and file contents. A `readlink` target of 1024 bytes or more, which the source truncates, is taken whole.
- `POSIXFileTypes` and `Dirent` formatting are left out, as is the `print` in `resource(atPath:)`.
- The Linux branches (`#else`) are platform variants. They are left out, including the empty `NSMutableData` slice in `HTTP.swift`.
- The `SXResoucesConfig` setters are plain field assignments. Dafny's datatype update `cfg.(virtualPathPolicy := p)` is the same thing, so they have no members of their own.
- `expandToFullPath` returns an optional that is never nil; the model returns the string.
- `ApiLookup` routes by `rq.uri.path`, an extension from a library that is not part of this model. The model takes the path to be the uri text, and compares it exactly.
- `SXConnection` is an opaque connection value (`Connection = nat`), passed through to the handler.
- `SXRouter` is a Swift struct with a `mutating` method. It is modelled as a class whose `dict` field `Register` updates in place, which is the effect of a `mutating` call.
- Unicode: text is a sequence of scalar values. `caseInsensitiveCompare` is modelled as ASCII case folding only, and there is no Unicode normalisation.
- Integer widths: `Int` is 64-bit. `Int(_:radix:)` returns nil outside that range. Byte counts written into Content-Length are exact, and reading them back is proved for counts below 2^63.
- Dictionary iteration order is a parameter. No cross-key order of header lines or cookie attributes is claimed.
