/**
 * `parseHeaderFields`: the header block that follows the start line, read
 * one CR LF-terminated line at a time up to the first empty line (section
 * 3.2 of RFC 7230, simplified to the first `": "` of each line).
 */
module HeaderParse {
  import opened Wrappers
  import opened Bytes
  import opened Utf8
  import opened Text
  import opened Headers

  /**
   * The header lines read from cursor `offset` into `fields`: the fields
   * and the cursor after the empty line that ends them, or the error thrown.
   */
  function ParseLines(data: Bytes, offset: nat, fields: HeaderFields): (r: Outcome<(HeaderFields, nat)>)
    requires offset <= |data|
    ensures !r.Trap?
    ensures r.Ok? ==> offset + 2 <= r.value.1 <= |data|
    decreases |data| - offset, 1
  {
    match NextSegment(data, offset)
    case None => Throws(HeaderContainsNonStringLiterial)
    case Some((seg, next)) => ParseSegment(data, seg, next, fields)
  }

  /**
   * One segment read, the cursor already at `next`: an empty line ends the
   * block, a line `key: val` appends `val` under `key` and reading goes on.
   */
  function ParseSegment(data: Bytes, seg: Bytes, next: nat, fields: HeaderFields): (r: Outcome<(HeaderFields, nat)>)
    requires next <= |data|
    ensures !r.Trap?
    ensures r.Ok? ==> next <= r.value.1 <= |data|
    decreases |data| - next + 1, 0
  {
    match Decode(seg)
    case None => Throws(HeaderContainsNonStringLiterial)
    case Some(line) =>
      if line == "" then Ok((fields, next))
      else match Find(line, ": ")
        case None => Throws(MalformedEntry)
        case Some(i) =>
          var key, val := line[..i], line[i + 2..];
          ParseLines(data, next, if key in fields then fields[key := fields[key] + [val]] else fields[key := [val]])
  }

  /** The `repeat … while` loop shared by the three generations of `parseHeaderFields`. */
  method ReadHeaderLines(data: Bytes, offset: nat, fields: HeaderFields) returns (r: Outcome<(HeaderFields, nat)>)
    requires offset <= |data|
    ensures r == ParseLines(data, offset, fields)
  {
    var cursor, headerFields := offset, fields;
    while true
      invariant cursor <= |data|
      invariant ParseLines(data, cursor, headerFields) == ParseLines(data, offset, fields)
      decreases |data| - cursor
    {
      var lineb := NextSegment(data, cursor);
      if lineb.None? {
        return Throws(HeaderContainsNonStringLiterial);
      }
      var line := Decode(lineb.value.0);
      if line.None? {
        return Throws(HeaderContainsNonStringLiterial);
      }
      if line.value == "" {
        return Ok((headerFields, lineb.value.1));
      }
      var range := Find(line.value, ": ");
      if range.None? {
        return Throws(MalformedEntry);
      }
      var key, val := line.value[..range.value], line.value[range.value + 2..];
      if key in headerFields {
        headerFields := headerFields[key := headerFields[key] + [val]];
      } else {
        headerFields := headerFields[key := [val]];
      }
      cursor := lineb.value.1;
    }
  }

  /**
   * `parseHeaderFields(ignoreContent:dataReader:)` of the newest generation:
   * with `ignoreContent` the content is left as it was, otherwise it becomes
   * every byte after the empty line.
   */
  method ParseHeaderFields(ignoreContent: bool, content: Option<Bytes>, data: Bytes, offset: nat, fields: HeaderFields)
    returns (r: Outcome<(HeaderFields, Option<Bytes>)>)
    requires offset <= |data|
    ensures ParseLines(data, offset, fields).Throws? ==> r == Throws(ParseLines(data, offset, fields).error)
    ensures ParseLines(data, offset, fields).Ok? ==>
      var (headerFields, cursor) := ParseLines(data, offset, fields).value;
      r == Ok((headerFields, if ignoreContent then content else Some(data[cursor..])))
  {
    var lines := ReadHeaderLines(data, offset, fields);
    if !lines.Ok? {
      return Throws(lines.error);
    }
    if ignoreContent {
      return Ok((lines.value.0, content));
    }
    return Ok((lines.value.0, Some(data[lines.value.1..])));
  }

  /** `parseHeaderFields(dataReader:)` of the older generations: the content is always the remainder. */
  method ParseHeaderFieldsLegacy(data: Bytes, offset: nat, fields: HeaderFields) returns (r: Outcome<(HeaderFields, Bytes)>)
    requires offset <= |data|
    ensures ParseLines(data, offset, fields).Throws? ==> r == Throws(ParseLines(data, offset, fields).error)
    ensures ParseLines(data, offset, fields).Ok? ==>
      var (headerFields, cursor) := ParseLines(data, offset, fields).value;
      r == Ok((headerFields, data[cursor..]))
  {
    var lines := ReadHeaderLines(data, offset, fields);
    if !lines.Ok? {
      return Throws(lines.error);
    }
    return Ok((lines.value.0, data[lines.value.1..]));
  }

  // ---- single lines ----------------------------------------------------

  /** Without a CR LF at or after the cursor there is no line to read: `headerContainsNonStringLiterial`. */
  lemma NoLineEnd(data: Bytes, offset: nat, fields: HeaderFields)
    requires offset <= |data|
    requires forall j :: offset <= j ==> !CrlfAt(data, j)
    ensures ParseLines(data, offset, fields) == Throws(HeaderContainsNonStringLiterial)
  {
    NextSegmentSpec(data, offset);
  }

  /** The first empty line ends the header block; whatever follows, more CR LF lines included, is not read. */
  lemma StopsAtEmptyLine(data: Bytes, offset: nat, fields: HeaderFields)
    requires BytesAt(data, offset, CRLF)
    ensures ParseLines(data, offset, fields) == Ok((fields, offset + 2))
  {
    assert [] + CRLF == CRLF;
    NextSegmentAt(data, offset, []);
  }

  /** A line that cannot be decoded as UTF-8 throws `headerContainsNonStringLiterial`. */
  lemma UndecodableLine(data: Bytes, offset: nat, seg: Bytes, fields: HeaderFields)
    requires BytesAt(data, offset, seg + CRLF) && CR !in seg && Decode(seg).None?
    ensures ParseLines(data, offset, fields) == Throws(HeaderContainsNonStringLiterial)
  {
    NextSegmentAt(data, offset, seg);
  }

  /** A non-empty line without `": "` throws `malformedEntry`. */
  lemma LineWithoutSeparator(data: Bytes, offset: nat, seg: Bytes, fields: HeaderFields)
    requires BytesAt(data, offset, seg + CRLF) && CR !in seg
    requires Decode(seg).Some? && Decode(seg).value != "" && Find(Decode(seg).value, ": ").None?
    ensures ParseLines(data, offset, fields) == Throws(MalformedEntry)
  {
    NextSegmentAt(data, offset, seg);
  }

  /**
   * A line is split at its first `": "`: the text before it is the key, the
   * text after it the value, appended under that exact key; reading goes on
   * after the line.
   */
  lemma HeaderLine(data: Bytes, offset: nat, seg: Bytes, fields: HeaderFields, line: string, i: nat)
    requires offset <= |data| && NextSegment(data, offset) == Some((seg, offset + |seg| + 2))
    requires Decode(seg) == Some(line) && Find(line, ": ") == Some(i)
    ensures ParseLines(data, offset, fields) ==
      ParseLines(data, offset + |seg| + 2, AppendHeader(fields, line[..i], line[i + 2..]))
  {
  }

  // ---- serialise, then parse -------------------------------------------

  /** No `'\r'` in the text. */
  predicate NoCR(s: string)
  {
    '\r' !in s
  }

  /** A key and values that survive the trip: the key holds no `": "`; neither holds a CR. */
  predicate GoodEntry(key: string, values: seq<string>)
  {
    Find(key, ": ").None? && NoCR(key) && forall i :: 0 <= i < |values| ==> NoCR(values[i])
  }

  /** Header fields that serialise and parse back unchanged: each good, with at least one value. */
  predicate WellFormedFields(m: HeaderFields)
  {
    forall k :: k in m ==> |m[k]| > 0 && GoodEntry(k, m[k])
  }

  /** A line `key: val` whose key holds no `": "` adds `val` under `key`; reading goes on after it. */
  lemma KeyValueLine(data: Bytes, offset: nat, seg: Bytes, fields: HeaderFields, key: string, val: string)
    requires BytesAt(data, offset, seg + CRLF) && CR !in seg
    requires Decode(seg) == Some(key + ": " + val)
    requires Find(key, ": ").None?
    ensures ParseLines(data, offset, fields) ==
      ParseLines(data, offset + |seg| + 2, AppendHeader(fields, key, val))
  {
    var line := key + ": " + val;
    FindColonSpace(key, val);
    assert line[..|key|] == key && line[|key| + 2..] == val;
    NextSegmentAt(data, offset, seg);
    HeaderLine(data, offset, seg, fields, line, |key|);
  }

  // The round trip is proved in three layers that never meet inside one
  // proof: the bytes of the header text are a frame of encoded lines; a
  // frame of lines parses to the pairs they carry; and the pairs of a
  // well-formed map, appended one by one, rebuild the map.

  /** Each segment followed by CR LF. */
  function Frame(segs: seq<Bytes>): Bytes
  {
    if |segs| == 0 then [] else Frame(segs[..|segs| - 1]) + (segs[|segs| - 1] + CRLF)
  }

  /** `appendHeader` applied to each pair in turn. */
  function AddPairs(fields: HeaderFields, ps: seq<(string, string)>): HeaderFields
  {
    if |ps| == 0 then fields else AppendHeader(AddPairs(fields, ps[..|ps| - 1]), ps[|ps| - 1].0, ps[|ps| - 1].1)
  }

  /** Segment `i` holds no CR and decodes to line `key: val` of pair `i`, whose key holds no `": "`. */
  predicate LinesOf(segs: seq<Bytes>, ps: seq<(string, string)>)
  {
    && |segs| == |ps|
    && forall i :: 0 <= i < |segs| ==>
      && CR !in segs[i]
      && Decode(segs[i]) == Some(ps[i].0 + ": " + ps[i].1)
      && Find(ps[i].0, ": ").None?
  }

  /** The last line of a frame: the lines before it, then its own bytes, holding pair `n`. */
  lemma FrameLast(data: Bytes, offset: nat, segs: seq<Bytes>, ps: seq<(string, string)>)
    requires |segs| > 0 && LinesOf(segs, ps) && BytesAt(data, offset, Frame(segs))
    ensures var n := |segs| - 1;
      && LinesOf(segs[..n], ps[..n])
      && BytesAt(data, offset, Frame(segs[..n]))
      && BytesAt(data, offset + |Frame(segs[..n])|, segs[n] + CRLF)
      && CR !in segs[n]
      && Decode(segs[n]) == Some(ps[n].0 + ": " + ps[n].1)
      && Find(ps[n].0, ": ").None?
  {
    var n := |segs| - 1;
    BytesAtSplit(data, offset, Frame(segs[..n]), segs[n] + CRLF);
  }

  /** Reading the last line of a frame appends its pair. */
  lemma FrameStep(data: Bytes, offset: nat, segs: seq<Bytes>, ps: seq<(string, string)>, fields: HeaderFields)
    requires |segs| > 0 && LinesOf(segs, ps) && BytesAt(data, offset, Frame(segs))
    ensures var n := |segs| - 1;
      && LinesOf(segs[..n], ps[..n])
      && BytesAt(data, offset, Frame(segs[..n]))
      && ParseLines(data, offset + |Frame(segs[..n])|, AddPairs(fields, ps[..n])) ==
         ParseLines(data, offset + |Frame(segs)|, AddPairs(fields, ps))
  {
    var n := |segs| - 1;
    FrameLast(data, offset, segs, ps);
    KeyValueLine(data, offset + |Frame(segs[..n])|, segs[n], AddPairs(fields, ps[..n]), ps[n].0, ps[n].1);
  }

  /** A frame of `key: val` lines parses to those pairs, appended in order. */
  lemma {:induction false} ParseFrame(data: Bytes, offset: nat, segs: seq<Bytes>, ps: seq<(string, string)>, fields: HeaderFields)
    requires LinesOf(segs, ps) && BytesAt(data, offset, Frame(segs))
    ensures ParseLines(data, offset, fields) == ParseLines(data, offset + |Frame(segs)|, AddPairs(fields, ps))
    decreases |segs|
  {
    if |segs| > 0 {
      var n := |segs| - 1;
      FrameStep(data, offset, segs, ps, fields);
      ParseFrame(data, offset, segs[..n], ps[..n], fields);
    }
  }

  lemma {:induction false} FrameAppend(a: seq<Bytes>, b: seq<Bytes>)
    ensures Frame(a + b) == Frame(a) + Frame(b)
    decreases |b|
  {
    if |b| == 0 {
      assert a + b == a;
    } else {
      var n := |b| - 1;
      assert (a + b)[..|a| + n] == a + b[..n];
      FrameAppend(a, b[..n]);
    }
  }

  /** The pairs of one key: one per value, in order. */
  function KeyPairs(key: string, values: seq<string>): seq<(string, string)>
  {
    seq(|values|, i requires 0 <= i < |values| => (key, values[i]))
  }

  /** The pairs of all keys of `order`, key by key. */
  function Pairs(m: HeaderFields, order: seq<string>): seq<(string, string)>
    requires forall i :: 0 <= i < |order| ==> order[i] in m
  {
    if |order| == 0 then []
    else Pairs(m, order[..|order| - 1]) + KeyPairs(order[|order| - 1], m[order[|order| - 1]])
  }

  /** The encoded text of each pair's line. */
  function Segs(ps: seq<(string, string)>): seq<Bytes>
  {
    seq(|ps|, i requires 0 <= i < |ps| => Encode(ps[i].0 + ": " + ps[i].1))
  }

  lemma SegsAppend(a: seq<(string, string)>, b: seq<(string, string)>)
    ensures Segs(a + b) == Segs(a) + Segs(b)
  {
  }

  /** The bytes of one serialised line: its text, then CR LF. */
  lemma EncodeLine(key: string, val: string)
    ensures Encode(Line(key, val)) == Encode(key + ": " + val) + CRLF
  {
    EncodeAppend(key + ": " + val, "\r\n");
    assert Encode("\r\n") == CRLF;
  }

  /** The bytes of one key's lines are the frame of its encoded lines. */
  lemma {:induction false} EncodeExpand(key: string, values: seq<string>)
    ensures Encode(ExpandHeader(key, values)) == Frame(Segs(KeyPairs(key, values)))
    decreases |values|
  {
    if |values| > 0 {
      var n := |values| - 1;
      EncodeExpand(key, values[..n]);
      EncodeAppend(ExpandHeader(key, values[..n]), Line(key, values[n]));
      EncodeLine(key, values[n]);
      var ss := Segs(KeyPairs(key, values));
      assert ss[..n] == Segs(KeyPairs(key, values[..n]));
      assert ss[n] == Encode(key + ": " + values[n]);
    }
  }

  /** The bytes of the header text are the frame of all encoded lines. */
  lemma {:induction false} EncodeHeaderText(m: HeaderFields, order: seq<string>)
    requires forall i :: 0 <= i < |order| ==> order[i] in m
    ensures Encode(HeaderText(m, order)) == Frame(Segs(Pairs(m, order)))
    decreases |order|
  {
    if |order| > 0 {
      var n := |order| - 1;
      var k := order[n];
      EncodeHeaderText(m, order[..n]);
      EncodeAppend(HeaderText(m, order[..n]), ExpandHeader(k, m[k]));
      EncodeExpand(k, m[k]);
      SegsAppend(Pairs(m, order[..n]), KeyPairs(k, m[k]));
      FrameAppend(Segs(Pairs(m, order[..n])), Segs(KeyPairs(k, m[k])));
    }
  }

  /** Lines of keys and values without CR, keys without `": "`, encode to segments that decode back. */
  lemma SegsAreLines(ps: seq<(string, string)>)
    requires forall i :: 0 <= i < |ps| ==> Find(ps[i].0, ": ").None? && NoCR(ps[i].0) && NoCR(ps[i].1)
    ensures LinesOf(Segs(ps), ps)
  {
    forall i | 0 <= i < |ps|
      ensures CR !in Segs(ps)[i] && Decode(Segs(ps)[i]) == Some(ps[i].0 + ": " + ps[i].1)
    {
      var line := ps[i].0 + ": " + ps[i].1;
      assert '\r' !in line;
      EncodeAsciiByte(line, CR);
      DecodeEncode(line);
    }
  }

  /** The keys of `order` with their values in `m`. */
  function Restrict(m: HeaderFields, order: seq<string>): HeaderFields
  {
    map k | k in m && k in order :: m[k]
  }

  /** Distinct keys of `m`, each good, with at least one value. */
  predicate GoodOrder(m: HeaderFields, order: seq<string>)
  {
    && (forall i :: 0 <= i < |order| ==> order[i] in m)
    && Distinct(order)
    && (forall i :: 0 <= i < |order| ==> |m[order[i]]| > 0 && GoodEntry(order[i], m[order[i]]))
  }

  lemma {:induction false} AddPairsAppend(fields: HeaderFields, a: seq<(string, string)>, b: seq<(string, string)>)
    ensures AddPairs(fields, a + b) == AddPairs(AddPairs(fields, a), b)
    decreases |b|
  {
    if |b| == 0 {
      assert a + b == a;
    } else {
      var n := |b| - 1;
      assert (a + b)[..|a| + n] == a + b[..n];
      assert (a + b)[|a| + n] == b[n];
      AddPairsAppend(fields, a, b[..n]);
    }
  }

  /** Appending the values of a new key, one by one, adds that key with those values. */
  lemma {:induction false} AddKeyPairs(fields: HeaderFields, key: string, values: seq<string>)
    requires key !in fields && |values| > 0
    ensures AddPairs(fields, KeyPairs(key, values)) == fields[key := values]
    decreases |values|
  {
    var n := |values| - 1;
    assert KeyPairs(key, values)[..n] == KeyPairs(key, values[..n]);
    if n == 0 {
      assert AddPairs(fields, KeyPairs(key, values[..n])) == fields;
    } else {
      AddKeyPairs(fields, key, values[..n]);
    }
    assert values[..n] + [values[n]] == values;
  }

  /** One more distinct key of the order adds that key, with its values, to the restriction. */
  lemma RestrictSnoc(m: HeaderFields, order: seq<string>)
    requires |order| > 0 && Distinct(order) && order[|order| - 1] in m
    ensures order[|order| - 1] !in Restrict(m, order[..|order| - 1])
    ensures Restrict(m, order) == Restrict(m, order[..|order| - 1])[order[|order| - 1] := m[order[|order| - 1]]]
  {
    var n, k := |order| - 1, order[|order| - 1];
    forall x | x in m
      ensures (x in order) == (x in order[..n] || x == k)
    {
      if x in order {
        var i :| 0 <= i < |order| && order[i] == x;
        if i < n {
          assert order[..n][i] == x;
        }
      }
      if x in order[..n] {
        var i :| 0 <= i < n && order[..n][i] == x;
        assert order[i] == x;
      }
    }
    assert Restrict(m, order) == Restrict(m, order[..n])[k := m[k]];
  }

  lemma GoodOrderPrefix(m: HeaderFields, order: seq<string>)
    requires |order| > 0 && GoodOrder(m, order)
    ensures GoodOrder(m, order[..|order| - 1])
  {
  }

  /** The pairs of distinct keys, appended to nothing, give back those keys with their values. */
  lemma {:induction false} AddPairsRestrict(m: HeaderFields, order: seq<string>)
    requires GoodOrder(m, order)
    ensures AddPairs(map[], Pairs(m, order)) == Restrict(m, order)
    decreases |order|
  {
    if |order| == 0 {
      assert Restrict(m, order) == map[];
    } else {
      var n := |order| - 1;
      var k := order[n];
      GoodOrderPrefix(m, order);
      AddPairsRestrict(m, order[..n]);
      AddPairsAppend(map[], Pairs(m, order[..n]), KeyPairs(k, m[k]));
      RestrictSnoc(m, order);
      AddKeyPairs(Restrict(m, order[..n]), k, m[k]);
    }
  }

  /** The pairs of good keys are good. */
  lemma GoodPairs(m: HeaderFields, order: seq<string>)
    requires GoodOrder(m, order)
    ensures forall i :: 0 <= i < |Pairs(m, order)| ==>
      Find(Pairs(m, order)[i].0, ": ").None? && NoCR(Pairs(m, order)[i].0) && NoCR(Pairs(m, order)[i].1)
    decreases |order|
  {
    if |order| > 0 {
      var n := |order| - 1;
      assert GoodOrder(m, order[..n]);
      GoodPairs(m, order[..n]);
    }
  }

  /**
   * A frame of `key: val` lines and the empty line after it: the fields the
   * pairs rebuild, and the cursor past that empty line.
   */
  lemma ParseFrameEnd(data: Bytes, offset: nat, segs: seq<Bytes>, ps: seq<(string, string)>, e: Bytes, m: HeaderFields)
    requires LinesOf(segs, ps) && e == Frame(segs) && AddPairs(map[], ps) == m
    requires BytesAt(data, offset, e + CRLF)
    ensures ParseLines(data, offset, map[]) == Ok((m, offset + |e| + 2))
  {
    BytesAtSplit(data, offset, e, CRLF);
    ParseFrame(data, offset, segs, ps, map[]);
    StopsAtEmptyLine(data, offset + |e|, m);
  }

  /** Every key of the iteration order, and only those, restricts a map to itself. */
  lemma RestrictAll(m: HeaderFields, order: seq<string>)
    requires Enumerates(order, m)
    ensures Restrict(m, order) == m
  {
  }

  /** The header text of well-formed fields is a frame of lines carrying pairs that rebuild the fields. */
  lemma HeaderFrame(m: HeaderFields, order: seq<string>) returns (segs: seq<Bytes>, ps: seq<(string, string)>)
    requires Enumerates(order, m) && WellFormedFields(m)
    ensures Encode(HeaderText(m, order)) == Frame(segs)
    ensures LinesOf(segs, ps)
    ensures AddPairs(map[], ps) == m
  {
    ps := Pairs(m, order);
    segs := Segs(ps);
    assert GoodOrder(m, order);
    EncodeHeaderText(m, order);
    GoodPairs(m, order);
    SegsAreLines(ps);
    AddPairsRestrict(m, order);
    RestrictAll(m, order);
  }

  /**
   * Header round trip: the serialised header block of well-formed fields,
   * in any iteration order, parses back to those fields, and the cursor
   * stops at `end`, right after the block's closing CR LF.
   */
  lemma ParseHeaderBlock(data: Bytes, offset: nat, m: HeaderFields, order: seq<string>, end: nat)
    requires Enumerates(order, m) && WellFormedFields(m)
    requires BytesAt(data, offset, Encode(HeaderText(m, order)) + CRLF)
    requires end == offset + |Encode(HeaderText(m, order))| + 2
    ensures ParseLines(data, offset, map[]) == Ok((m, end))
  {
    var segs, ps := HeaderFrame(m, order);
    ParseFrameEnd(data, offset, segs, ps, Encode(HeaderText(m, order)), m);
  }

  /** A first line without CR is read back, and decodes to the text it encodes. */
  lemma StartLine(data: Bytes, line: string)
    requires NoCR(line) && BytesAt(data, 0, Encode(line) + CRLF)
    ensures NextSegment(data, 0) == Some((Encode(line), |Encode(line)| + 2))
  {
    EncodeAsciiByte(line, CR);
    NextSegmentAt(data, 0, Encode(line));
  }

  /** Data that begins with a serialised header holds the status line, then the header block. */
  lemma RawHeaderAt(data: Bytes, statusline: string, m: HeaderFields, order: seq<string>)
    requires forall i :: 0 <= i < |order| ==> order[i] in m
    requires BytesAt(data, 0, RawHeader(statusline, m, order))
    ensures BytesAt(data, 0, Encode(statusline) + CRLF)
    ensures BytesAt(data, |Encode(statusline)| + 2, Encode(HeaderText(m, order)) + CRLF)
    ensures |RawHeader(statusline, m, order)| == |Encode(statusline)| + |Encode(HeaderText(m, order))| + 4
  {
    var s, e := Encode(statusline), Encode(HeaderText(m, order));
    RawLayout(statusline, m, order, None);
    BytesAtSplit(data, 0, s + CRLF + e, CRLF);
    BytesAtSplit(data, 0, s + CRLF, e);
    BytesAtJoin(data, |s| + 2, e, CRLF);
  }

  /** The first line of data that begins with a serialised header is the status line. */
  lemma RawStartLine(data: Bytes, statusline: string, m: HeaderFields, order: seq<string>)
    requires NoCR(statusline)
    requires forall i :: 0 <= i < |order| ==> order[i] in m
    requires BytesAt(data, 0, RawHeader(statusline, m, order))
    ensures NextSegment(data, 0) == Some((Encode(statusline), |Encode(statusline)| + 2))
  {
    RawHeaderAt(data, statusline, m, order);
    StartLine(data, statusline);
  }

  /** The header block after that first line parses back to the fields, ending where the content begins. */
  lemma RawHeaderBlock(data: Bytes, statusline: string, m: HeaderFields, order: seq<string>)
    requires Enumerates(order, m) && WellFormedFields(m)
    requires BytesAt(data, 0, RawHeader(statusline, m, order))
    ensures |Encode(statusline)| + 2 <= |data|
    ensures ParseLines(data, |Encode(statusline)| + 2, map[]) == Ok((m, |RawHeader(statusline, m, order)|))
  {
    RawHeaderAt(data, statusline, m, order);
    ParseHeaderBlock(data, |Encode(statusline)| + 2, m, order, |RawHeader(statusline, m, order)|);
  }

  /**
   * A serialised message read back from any data that begins with it: the
   * first line is the encoded status line (which decodes back, by
   * `DecodeEncode`), and the header block after it parses to the same
   * fields, ending where the content begins.
   */
  lemma ParseRawHeader(data: Bytes, statusline: string, m: HeaderFields, order: seq<string>)
    requires NoCR(statusline)
    requires Enumerates(order, m) && WellFormedFields(m)
    requires BytesAt(data, 0, RawHeader(statusline, m, order))
    ensures var s := Encode(statusline);
      && NextSegment(data, 0) == Some((s, |s| + 2))
      && ParseLines(data, |s| + 2, map[]) == Ok((m, |RawHeader(statusline, m, order)|))
  {
    RawStartLine(data, statusline, m, order);
    RawHeaderBlock(data, statusline, m, order);
  }
}
