/** `HTTPVersion`: the `HTTP/<major>.<minor>` token of a start line (section 2.6 of RFC 7230). */
module HttpVersion {
  import opened Wrappers
  import opened Text

  datatype HTTPVersion = HTTPVersion(mainVersion: Int64, subVersion: Int64)

  /** `HTTPVersion.default` */
  const Default: HTTPVersion := HTTPVersion(1, 1)

  /** `stringVal` */
  function StringVal(v: HTTPVersion): string
  {
    "HTTP/" + IntToString(v.mainVersion) + "." + IntToString(v.subVersion)
  }

  /** The initializer's decision on the `.`-pieces that follow `HTTP/`. */
  function FromPieces(versions: seq<string>): Outcome<Option<HTTPVersion>>
    requires |versions| >= 1
  {
    match ParseInt(versions[0], 10)
    case None => Ok(None)
    case Some(main) =>
      if |versions| < 2 then Trap
      else
        match ParseInt(versions[1], 10)
        case None => Ok(None)
        case Some(sub) => Ok(Some(HTTPVersion(main, sub)))
  }

  /**
   * `HTTPVersion(str:)`. `Ok(None)` is the initializer's nil; `Trap` is the
   * out-of-range `versions[1]` when no `.` follows a valid major number.
   */
  function FromString(str: string): (r: Outcome<Option<HTTPVersion>>)
    ensures !r.Throws?
    ensures !HasPrefix(str, "HTTP/") ==> r == Ok(None)
    ensures r == Trap ==> HasPrefix(str, "HTTP/") && '.' !in str[5..]
  {
    if HasPrefix(str, "HTTP/") then
      var versions := Split(str[5..], ".");
      var r := FromPieces(versions);
      assert r == Trap ==> '.' !in str[5..] by {
        if r == Trap { SplitOneFree(str[5..], '.'); }
      }
      r
    else Ok(None)
  }

  lemma StringValShape(v: HTTPVersion)
    ensures StringVal(v)[..5] == "HTTP/" && StringVal(v)[5..] == IntToString(v.mainVersion) + "." + IntToString(v.subVersion)
  {
  }

  /** Parsing `stringVal` gives the version back, for every pair of 64-bit numbers. */
  lemma StringValRoundTrip(v: HTTPVersion)
    ensures FromString(StringVal(v)) == Ok(Some(v))
  {
    var a, b := IntToString(v.mainVersion), IntToString(v.subVersion);
    StringValShape(v);
    IntToStringPlain(v.mainVersion);
    IntToStringPlain(v.subVersion);
    SplitCons(a, '.', b);
    SplitFree(b, '.');
    assert a + "." + b == a + ['.'] + b;
    ParseIntToString(v.mainVersion);
    ParseIntToString(v.subVersion);
  }

  /** The version token holds no space and no CR, so it stays one token of a start line. */
  lemma StringValPlain(v: HTTPVersion)
    ensures ' ' !in StringVal(v) && '\r' !in StringVal(v)
  {
    var a, b := IntToString(v.mainVersion), IntToString(v.subVersion);
    IntToStringPlain(v.mainVersion);
    IntToStringPlain(v.subVersion);
    assert StringVal(v) == "HTTP/" + a + "." + b;
    forall k | 0 <= k < |StringVal(v)| ensures StringVal(v)[k] != ' ' && StringVal(v)[k] != '\r' {
      if k >= 5 + |a| + 1 {
        assert StringVal(v)[k] == b[k - 6 - |a|];
      } else if 5 <= k < 5 + |a| {
        assert StringVal(v)[k] == a[k - 5];
      }
    }
  }

  /** After the prefix, the result depends only on the `.`-pieces of the rest. */
  lemma FromStringPieces(s: string)
    requires HasPrefix(s, "HTTP/")
    ensures FromString(s) == FromPieces(Split(s[5..], "."))
  {
  }

  /** The text after `HTTP/` of a version string built from pieces. */
  lemma AfterPrefix(a: string, b: string, c: string)
    ensures HasPrefix("HTTP/" + a, "HTTP/") && ("HTTP/" + a)[5..] == a
    ensures HasPrefix("HTTP/" + a + "." + b, "HTTP/") && ("HTTP/" + a + "." + b)[5..] == a + ['.'] + b
    ensures HasPrefix("HTTP/" + a + "." + b + "." + c, "HTTP/")
    ensures ("HTTP/" + a + "." + b + "." + c)[5..] == a + ['.'] + (b + ['.'] + c)
  {
    assert ("HTTP/" + a)[..5] == "HTTP/";
    assert ("HTTP/" + a + "." + b)[..5] == "HTTP/";
    assert ("HTTP/" + a + "." + b + "." + c)[..5] == "HTTP/";
  }

  /** Pieces after the minor number are ignored: `"HTTP/1.1.7"` reads as 1.1. */
  lemma ExtraPiecesIgnored(a: string, b: string, c: string)
    requires '.' !in a && '.' !in b
    ensures FromString("HTTP/" + a + "." + b + "." + c) == FromString("HTTP/" + a + "." + b)
  {
    AfterPrefix(a, b, c);
    FromStringPieces("HTTP/" + a + "." + b + "." + c);
    FromStringPieces("HTTP/" + a + "." + b);
    SplitCons(a, '.', b + ['.'] + c);
    SplitCons(b, '.', c);
    SplitCons(a, '.', b);
    SplitFree(b, '.');
  }

  /** With no `.` after the prefix, a valid major number leads to the out-of-range `versions[1]`. */
  lemma NoDotTraps(a: string)
    requires '.' !in a && ParseInt(a, 10).Some?
    ensures FromString("HTTP/" + a) == Trap
  {
    AfterPrefix(a, "", "");
    FromStringPieces("HTTP/" + a);
    SplitFree(a, '.');
  }

  /** With no `.` after the prefix and no valid major number, the result is nil: indexing stops at `versions[0]`. */
  lemma NoDotNoNumberIsNil(a: string)
    requires '.' !in a && ParseInt(a, 10).None?
    ensures FromString("HTTP/" + a) == Ok(None)
  {
    AfterPrefix(a, "", "");
    FromStringPieces("HTTP/" + a);
    SplitFree(a, '.');
  }

  /** A major or minor piece that is not an integer gives nil. */
  lemma BadPieceIsNil(a: string, b: string)
    requires '.' !in a && '.' !in b
    requires ParseInt(a, 10).None? || ParseInt(b, 10).None?
    ensures FromString("HTTP/" + a + "." + b) == Ok(None)
  {
    AfterPrefix(a, b, "");
    FromStringPieces("HTTP/" + a + "." + b);
    SplitCons(a, '.', b);
    SplitFree(b, '.');
  }

  /** `HTTPVersion.default` is HTTP/1.1. */
  lemma DefaultIsOneOne()
    ensures StringVal(Default) == "HTTP/1.1"
    ensures FromString("HTTP/1.1") == Ok(Some(Default))
  {
    assert NatToString(1) == "1";
    StringValRoundTrip(Default);
  }

  lemma ExampleExtraPiece()
    ensures FromString("HTTP/1.1.7") == Ok(Some(HTTPVersion(1, 1)))
  {
    DefaultIsOneOne();
    ExtraPiecesIgnored("1", "1", "7");
    assert "HTTP/1.1.7" == "HTTP/" + "1" + "." + "1" + "." + "7";
    assert "HTTP/1.1" == "HTTP/" + "1" + "." + "1";
  }

  lemma ExampleNoMinor()
    ensures FromString("HTTP/1") == Trap
  {
    assert DigitsValue("1", 10) == Some(1);
    NoDotTraps("1");
    assert "HTTP/1" == "HTTP/" + "1";
  }

  lemma ExampleLowerCasePrefix()
    ensures FromString("http/1.1") == Ok(None)
  {
    assert "http/1.1"[0] != "HTTP/"[0];
  }
}
