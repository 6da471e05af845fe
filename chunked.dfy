/**
 * Chunked transfer coding as the one-shot client reads it (both the newest
 * and the older generation of `oneshot`): every socket read is taken to hold
 * one chunk, `size-in-hex CRLF payload`, and the reads end when one of them
 * closes with the last-chunk bytes `0 CRLF CRLF` or the socket has no more.
 *
 * The socket is a parameter: `more` are the non-nil results of the reads
 * after the first one, in order; a read past the end returns nil.
 */
module Chunked {
  import opened Wrappers
  import opened Bytes
  import opened Utf8
  import opened Text
  import opened Headers
  import Response
  import LegacyResponse

  /** The last-chunk bytes `"0\r\n\r\n"` that end a chunked body. */
  const Terminal: Bytes := [0x30, 0x0D, 0x0A, 0x0D, 0x0A]

  /** The data ends with the last-chunk bytes. */
  predicate Terminated(data: Bytes)
  {
    |data| >= 5 && data[|data| - 5..] == Terminal
  }

  /** How a read that did not produce a value ends the whole reassembly. */
  function Fail<T, U>(o: Outcome<T>): Outcome<U>
    requires !o.Ok?
  {
    if o.Trap? then Trap else Throws(o.error)
  }

  /**
   * `readChunked(data:)`: whether the data ends with the last chunk, and the
   * payload of its first chunk. The last five bytes are taken before anything
   * else, so fewer than five bytes trap; a size line that is missing, not
   * ASCII or not a hexadecimal integer throws `malformedEntry`; a negative
   * size or one running past the data traps.
   */
  function ReadChunked(data: Bytes): Outcome<(bool, Bytes)>
  {
    if |data| < 5 then Trap
    else
      var t := data[|data| - 5..] == Terminal;
      match NextSegment(data, 0)
      case None => Throws(MalformedEntry)
      case Some((sizeLine, cursor)) =>
        match AsciiDecode(sizeLine)
        case None => Throws(MalformedEntry)
        case Some(sizeText) =>
          match ParseInt(sizeText, 16)
          case None => Throws(MalformedEntry)
          case Some(n) =>
            if n < 0 || cursor + n > |data| then Trap
            else Ok((t, data[cursor..cursor + n]))
  }

  /**
   * The reading loop: while the last chunk has not been seen, the next read
   * is decoded and its payload appended to the pool; the loop also ends when
   * the socket has nothing more.
   */
  function Drain(done: bool, pool: Bytes, more: seq<Bytes>): Outcome<Bytes>
    decreases |more|
  {
    if done || |more| == 0 then Ok(pool)
    else
      match ReadChunked(more[0])
      case Ok((t, p)) => Drain(t, pool + p, more[1..])
      case Throws(e) => Throws(e)
      case Trap => Trap
  }

  /** The whole body rebuilt from the response's content and the reads after it. */
  function Reassemble(content: Bytes, more: seq<Bytes>): Outcome<Bytes>
  {
    Drain(false, [], [content] + more)
  }

  /** The payloads one after the other. */
  function Flatten(ps: seq<Bytes>): Bytes
  {
    if |ps| == 0 then [] else ps[0] + Flatten(ps[1..])
  }

  /** The first read, then the loop, as the client runs them. */
  method ReadChunks(content: Bytes, more: seq<Bytes>) returns (r: Outcome<Bytes>)
    ensures r == Reassemble(content, more)
  {
    assert ([content] + more)[1..] == more;
    var first := ReadChunked(content);
    if !first.Ok? {
      return Fail(first);
    }
    var pool := first.value;
    assert [] + pool.1 == pool.1;
    var i := 0;
    while !pool.0
      invariant 0 <= i <= |more|
      invariant Drain(pool.0, pool.1, more[i..]) == Reassemble(content, more)
      decreases |more| - i
    {
      if i == |more| {
        break;
      }
      var x := ReadChunked(more[i]);
      assert more[i..][1..] == more[i + 1..];
      if !x.Ok? {
        return Fail(x);
      }
      pool := (x.value.0, pool.1 + x.value.1);
      i := i + 1;
    }
    r := Ok(pool.1);
  }

  // ---- one chunk ----------------------------------------------------------

  /**
   * A chunk written as its size in ASCII hexadecimal, CR LF, the payload and
   * anything after it reads back as that payload, flagged as the last exactly
   * when the data ends with the last-chunk bytes.
   */
  lemma ChunkRead(h: string, p: Bytes, rest: Bytes)
    requires IsAscii(h) && '\r' !in h && ParseInt(h, 16) == Some(|p|)
    requires |Encode(h) + CRLF + p + rest| >= 5
    ensures ReadChunked(Encode(h) + CRLF + p + rest) == Ok((Terminated(Encode(h) + CRLF + p + rest), p))
  {
    var e := Encode(h);
    var data := e + CRLF + p + rest;
    assert data == (e + CRLF) + (p + rest);
    BytesAtPrefix(e + CRLF, p + rest);
    EncodeAsciiByte(h, CR);
    NextSegmentAt(data, 0, e);
    EncodeAscii(h);
    assert AsciiDecode(e).value == h;
    assert data[|e| + 2..|e| + 2 + |p|] == p;
  }

  /** A size line that is ASCII but not hexadecimal is a malformed entry. */
  lemma ChunkSizeNotHex(h: string, rest: Bytes)
    requires IsAscii(h) && '\r' !in h && ParseInt(h, 16).None?
    requires |Encode(h) + CRLF + rest| >= 5
    ensures ReadChunked(Encode(h) + CRLF + rest) == Throws(MalformedEntry)
  {
    var e := Encode(h);
    BytesAtPrefix(e + CRLF, rest);
    EncodeAsciiByte(h, CR);
    NextSegmentAt(e + CRLF + rest, 0, e);
    EncodeAscii(h);
    assert AsciiDecode(e).value == h;
  }

  /** Data without any CR LF has no size line. */
  lemma ChunkWithoutSizeLine(data: Bytes)
    requires |data| >= 5 && NextSegment(data, 0).None?
    ensures ReadChunked(data) == Throws(MalformedEntry)
  {
  }

  /** A chunk that is read is flagged last exactly when the data ends with the last-chunk bytes, and its payload lies inside the data. */
  lemma ChunkFlag(data: Bytes)
    requires ReadChunked(data).Ok?
    ensures ReadChunked(data).value.0 <==> Terminated(data)
    ensures |ReadChunked(data).value.1| <= |data| - 2
  {
  }

  // ---- the loop -----------------------------------------------------------

  /** One turn of the loop: a decoded read that is not yet the last hands its flag and the grown pool on. */
  lemma DrainStep(pool: Bytes, more: seq<Bytes>, t: bool, p: Bytes)
    requires |more| > 0 && ReadChunked(more[0]) == Ok((t, p))
    ensures Drain(false, pool, more) == Drain(t, pool + p, more[1..])
  {
  }

  /**
   * When the reads up to and including the first one flagged last (or all
   * of them, if none is) decode to payloads `ps`, the pool grows by exactly
   * those payloads in order; the reads after the last chunk are never read.
   */
  lemma {:induction false} DrainCollects(pool: Bytes, more: seq<Bytes>, ts: seq<bool>, ps: seq<Bytes>)
    requires |ts| == |ps| <= |more|
    requires forall i :: 0 <= i < |ts| ==> ReadChunked(more[i]) == Ok((ts[i], ps[i]))
    requires forall i :: 0 <= i < |ts| - 1 ==> !ts[i]
    requires |ts| == |more| || (|ts| > 0 && ts[|ts| - 1])
    ensures Drain(false, pool, more) == Ok(pool + Flatten(ps))
    decreases |ts|
  {
    if |ts| == 0 {
      assert pool + Flatten(ps) == pool;
    } else {
      DrainStep(pool, more, ts[0], ps[0]);
      var more', ts', ps' := more[1..], ts[1..], ps[1..];
      if ts[0] {
        assert |ps| == 1 && ps' == [];
        assert pool + Flatten(ps) == pool + ps[0];
      } else {
        forall i | 0 <= i < |ts'|
          ensures ReadChunked(more'[i]) == Ok((ts'[i], ps'[i]))
        {
          assert more'[i] == more[i + 1];
        }
        forall i | 0 <= i < |ts'| - 1
          ensures !ts'[i]
        {
          assert ts'[i] == ts[i + 1];
        }
        DrainCollects(pool + ps[0], more', ts', ps');
        assert pool + Flatten(ps) == (pool + ps[0]) + Flatten(ps');
      }
    }
  }

  /**
   * When the first read before the last chunk that fails to decode is read
   * `j`, the reassembly fails as that read did.
   */
  lemma {:induction false} DrainFails(pool: Bytes, more: seq<Bytes>, j: nat)
    requires j < |more|
    requires forall i :: 0 <= i < j ==> ReadChunked(more[i]).Ok? && !ReadChunked(more[i]).value.0
    requires !ReadChunked(more[j]).Ok?
    ensures Drain(false, pool, more) == Fail(ReadChunked(more[j]))
    decreases j
  {
    if j > 0 {
      var x := ReadChunked(more[0]);
      forall i | 0 <= i < j - 1
        ensures ReadChunked(more[1..][i]).Ok? && !ReadChunked(more[1..][i]).value.0
      {
        assert more[1..][i] == more[i + 1];
      }
      assert more[1..][j - 1] == more[j];
      DrainFails(pool + x.value.1, more[1..], j - 1);
    }
  }

  /** Whatever happens, the pool that has been gathered is never given up: it begins the result. */
  lemma {:induction false} DrainExtends(done: bool, pool: Bytes, more: seq<Bytes>)
    requires Drain(done, pool, more).Ok?
    ensures |pool| <= |Drain(done, pool, more).value|
    ensures Drain(done, pool, more).value[..|pool|] == pool
    decreases |more|
  {
    if !done && |more| > 0 {
      var x := ReadChunked(more[0]);
      DrainExtends(x.value.0, pool + x.value.1, more[1..]);
      var r := Drain(done, pool, more).value;
      assert r[..|pool|] == r[..|pool + x.value.1|][..|pool|];
    }
  }

  /** The reassembled body is the content's payload followed by those of the later reads, up to the last chunk. */
  lemma ReassembleCollects(content: Bytes, more: seq<Bytes>, ts: seq<bool>, ps: seq<Bytes>)
    requires |ts| == |ps| <= |more| + 1
    requires forall i :: 0 <= i < |ts| ==> ReadChunked(([content] + more)[i]) == Ok((ts[i], ps[i]))
    requires forall i :: 0 <= i < |ts| - 1 ==> !ts[i]
    requires |ts| == |more| + 1 || (|ts| > 0 && ts[|ts| - 1])
    ensures Reassemble(content, more) == Ok(Flatten(ps))
  {
    var all := [content] + more;
    assert |all| == |more| + 1;
    DrainCollects([], all, ts, ps);
    assert [] + Flatten(ps) == Flatten(ps);
  }

  /** The five bytes `"hello"`. */
  const Hello: Bytes := [0x68, 0x65, 0x6C, 0x6C, 0x6F]

  /** The chunk `"5\r\nhello"` reads back as `"hello"`. */
  lemma HelloChunk(rest: Bytes)
    ensures ReadChunked([0x35] + CRLF + Hello + rest) == Ok((Terminated([0x35] + CRLF + Hello + rest), Hello))
  {
    assert Encode("5") == [0x35];
    assert ParseInt("5", 16) == Some(5);
    ChunkRead("5", Hello, rest);
  }

  /** The last chunk read alone has an empty payload and is flagged last. */
  lemma TerminalChunk()
    ensures ReadChunked(Terminal) == Ok((true, []))
  {
    assert Encode("0") == [0x30];
    assert ParseInt("0", 16) == Some(0);
    ChunkRead("0", [], CRLF);
    assert Terminal == Encode("0") + CRLF + [] + CRLF;
  }

  /** `"5\r\nhello\r\n0\r\n\r\n"` in the first read is the whole body: `"hello"`, and no read follows. */
  lemma ExampleOneRead(more: seq<Bytes>)
    ensures Reassemble([0x35] + CRLF + Hello + CRLF + Terminal, more) == Ok(Hello)
  {
    var data := [0x35] + CRLF + Hello + CRLF + Terminal;
    HelloChunk(CRLF + Terminal);
    assert data == [0x35] + CRLF + Hello + (CRLF + Terminal);
    assert data[|data| - 5..] == Terminal;
    DrainStep([], [data] + more, true, Hello);
    assert [] + Hello == Hello;
  }

  /** `"5\r\nhello\r\n"`, then a read of `"0\r\n\r\n"`: the body is `"hello"`. */
  lemma ExampleTwoReads()
    ensures Reassemble([0x35] + CRLF + Hello + CRLF, [Terminal]) == Ok(Hello)
  {
    var first := [0x35] + CRLF + Hello + CRLF;
    HelloChunk(CRLF);
    assert first[|first| - 5] == 0x6C;
    DrainStep([], [first, Terminal], false, Hello);
    assert [first, Terminal][1..] == [Terminal];
    TerminalChunk();
    DrainStep([] + Hello, [Terminal], true, []);
    assert [] + Hello + [] == Hello;
  }

  // ---- the response -------------------------------------------------------

  /** The response asks for the chunked coding and its content may hold a chunk. */
  predicate ChunkedContent(m: HeaderFields, order: seq<string>, content: Bytes)
    requires forall i :: 0 <= i < |order| ==> order[i] in m
  {
    HasValue(m, order, "chunked", TransferEncoding) && |content| >= 5
  }

  /**
   * The newest generation: a response with content whose Transfer-Encoding
   * lists `chunked` and whose content has at least five bytes gets the
   * reassembled body as its content; any other response is left as it is.
   */
  method Dechunk(response: Response.HTTPResponse, order: seq<string>, more: seq<Bytes>)
    returns (r: Outcome<Response.HTTPResponse>)
    requires Enumerates(order, response.headerFields)
    ensures !(response.content.Some? && ChunkedContent(response.headerFields, order, response.content.value))
      ==> r == Ok(response)
    ensures response.content.Some? && ChunkedContent(response.headerFields, order, response.content.value)
      ==> match Reassemble(response.content.value, more)
          case Ok(body) => r == Ok(response.(content := Some(body)))
          case Throws(e) => r == Throws(e)
          case Trap => r == Trap
  {
    r := Ok(response);
    if response.content.Some? {
      var content := response.content.value;
      var chunked := Exist(response.headerFields, order, "chunked", TransferEncoding);
      if chunked && |content| >= 5 {
        var body := ReadChunks(content, more);
        if !body.Ok? {
          return Fail(body);
        }
        r := Ok(response.(content := Some(body.value)));
      }
    }
  }

  /** The older generation, whose content is never nil. */
  method DechunkLegacy(response: LegacyResponse.HTTPResponse, order: seq<string>, more: seq<Bytes>)
    returns (r: Outcome<LegacyResponse.HTTPResponse>)
    requires Enumerates(order, response.headerFields)
    ensures !ChunkedContent(response.headerFields, order, response.content) ==> r == Ok(response)
    ensures ChunkedContent(response.headerFields, order, response.content)
      ==> match Reassemble(response.content, more)
          case Ok(body) => r == Ok(response.(content := body))
          case Throws(e) => r == Throws(e)
          case Trap => r == Trap
  {
    r := Ok(response);
    var chunked := Exist(response.headerFields, order, "chunked", TransferEncoding);
    if chunked && |response.content| >= 5 {
      var body := ReadChunks(response.content, more);
      if !body.Ok? {
        return Fail(body);
      }
      r := Ok(response.(content := body.value));
    }
  }
}
