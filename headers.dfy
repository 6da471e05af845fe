/**
 * The header multimap `[String: [String]]` shared by every generation of
 * the `HTTP` protocol: case-insensitive lookup, exact-key insertion, and
 * the text of the header block (section 3.2 of RFC 7230).
 */
module Headers {
  import opened Wrappers
  import opened Bytes
  import opened Text
  import opened Utf8

  type HeaderFields = map<string, seq<string>>

  // Header names the core uses (from `HTTPRequestEntry` / `HTTPResponseEntry`).
  const ContentLength: string := "Content-Length"
  const ContentEncoding: string := "Content-Encoding"
  const SetCookie: string := "Set-Cookie"
  const TransferEncoding: string := "Transfer-Encoding"
  const CookieEntry: string := "Cookie"

  /**
   * `appendHeader(field:val:)`: the exact key `field` gets `val` appended, or
   * is created as `[val]`; every other key keeps its list.
   */
  function AppendHeader(m: HeaderFields, field: string, val: string): HeaderFields
  {
    if field in m then m[field := m[field] + [val]] else m[field := [val]]
  }

  /**
   * Appending adds `field` if it was missing, puts `val` after the values
   * already held under exactly that key, and leaves every other key alone.
   */
  lemma AppendHeaderSpec(m: HeaderFields, field: string, val: string)
    ensures AppendHeader(m, field, val).Keys == m.Keys + {field}
    ensures AppendHeader(m, field, val)[field] == (if field in m then m[field] else []) + [val]
    ensures forall k :: k in m && k != field ==> AppendHeader(m, field, val)[k] == m[k]
  {
  }

  // ---- serialisation ---------------------------------------------------

  /** One header line. */
  function Line(key: string, val: string): string
  {
    key + ": " + val + "\r\n"
  }

  /** `expandHeader(key:value:)`: `value.reduce("") { $0 + line }`. */
  function ExpandHeader(key: string, values: seq<string>): string
  {
    if |values| == 0 then ""
    else ExpandHeader(key, values[..|values| - 1]) + Line(key, values[|values| - 1])
  }

  /**
   * The `reduce` over `headerFields` inside `raw` and `rawHeader`, after the
   * status line: each key's expansion, in the iteration order `order`.
   */
  function HeaderText(m: HeaderFields, order: seq<string>): string
    requires forall i :: 0 <= i < |order| ==> order[i] in m
  {
    if |order| == 0 then ""
    else HeaderText(m, order[..|order| - 1]) + ExpandHeader(order[|order| - 1], m[order[|order| - 1]])
  }

  /**
   * `rawHeader` of the newest generation: the status line and CR LF, the
   * header lines, and the CR LF that ends the header block, as UTF-8.
   */
  function RawHeader(statusline: string, m: HeaderFields, order: seq<string>): Bytes
    requires forall i :: 0 <= i < |order| ==> order[i] in m
  {
    Encode(statusline + "\r\n" + HeaderText(m, order)) + CRLF
  }

  /** `raw` of the two older generations: the content is always appended. */
  function Raw(statusline: string, m: HeaderFields, order: seq<string>, content: Bytes): Bytes
    requires forall i :: 0 <= i < |order| ==> order[i] in m
  {
    Encode(statusline + "\r\n" + HeaderText(m, order)) + CRLF + content
  }

  /** `raw` of the newest generation, whose content is optional. */
  function RawOptional(statusline: string, m: HeaderFields, order: seq<string>, content: Option<Bytes>): Bytes
    requires forall i :: 0 <= i < |order| ==> order[i] in m
  {
    var data := Encode(statusline + "\r\n" + HeaderText(m, order)) + CRLF;
    match content
    case None => data
    case Some(c) => data + c
  }

  /**
   * The layout of a serialised message: the status line, CR LF, the header
   * lines, CR LF, then the content; without content `raw` is `rawHeader`.
   */
  lemma RawLayout(statusline: string, m: HeaderFields, order: seq<string>, content: Option<Bytes>)
    requires forall i :: 0 <= i < |order| ==> order[i] in m
    ensures RawHeader(statusline, m, order) == Encode(statusline) + CRLF + Encode(HeaderText(m, order)) + CRLF
    ensures RawOptional(statusline, m, order, content) ==
      RawHeader(statusline, m, order) + (if content.Some? then content.value else [])
    ensures content.Some? ==> RawOptional(statusline, m, order, content) == Raw(statusline, m, order, content.value)
  {
    EncodeAppend(statusline + "\r\n", HeaderText(m, order));
    EncodeAppend(statusline, "\r\n");
    assert Encode("\r\n") == CRLF;
  }

  /** Adding a value at the end adds its line at the end. */
  lemma ExpandHeaderSnoc(key: string, values: seq<string>, v: string)
    ensures ExpandHeader(key, values + [v]) == ExpandHeader(key, values) + Line(key, v)
  {
    assert (values + [v])[..|values|] == values;
  }

  /**
   * `expandHeader` emits one line per value, in list order: the first value's
   * line comes first, and the empty list emits nothing.
   */
  lemma {:induction false} ExpandHeaderCons(key: string, v: string, values: seq<string>)
    ensures ExpandHeader(key, []) == ""
    ensures ExpandHeader(key, [v] + values) == Line(key, v) + ExpandHeader(key, values)
    decreases |values|
  {
    if |values| == 0 {
      assert [v] + values == [v];
      assert ExpandHeader(key, [v]) == ExpandHeader(key, []) + Line(key, v) by {
        assert [v][..0] == [];
      }
    } else {
      var init, last := values[..|values| - 1], values[|values| - 1];
      assert values == init + [last];
      assert [v] + values == ([v] + init) + [last];
      ExpandHeaderSnoc(key, [v] + init, last);
      ExpandHeaderCons(key, v, init);
      ExpandHeaderSnoc(key, init, last);
    }
  }

  // ---- lookup ----------------------------------------------------------

  /** The position of the first key in `order`, at or after `from`, equal to `entry` ignoring case. */
  function FirstCaseMatch(order: seq<string>, entry: string, from: nat): (r: Option<nat>)
    ensures r.Some? ==> from <= r.value < |order| && CaseEq(order[r.value], entry)
    ensures r.Some? ==> forall j :: from <= j < r.value ==> !CaseEq(order[j], entry)
    ensures r.None? ==> forall j :: from <= j < |order| ==> !CaseEq(order[j], entry)
    decreases |order| - from
  {
    if from >= |order| then None
    else if CaseEq(order[from], entry) then Some(from)
    else FirstCaseMatch(order, entry, from + 1)
  }

  /** What `valueOf(entry:)` returns when the dictionary is walked in `order`. */
  function Lookup(m: HeaderFields, order: seq<string>, entry: string): Option<seq<string>>
    requires forall i :: 0 <= i < |order| ==> order[i] in m
  {
    match FirstCaseMatch(order, entry, 0)
    case None => None
    case Some(i) => Some(m[order[i]])
  }

  /**
   * `valueOf(entry:)`: the values of the first key met that equals `entry`
   * ignoring case, or nil.
   */
  method ValueOf(m: HeaderFields, order: seq<string>, entry: string) returns (r: Option<seq<string>>)
    requires Enumerates(order, m)
    ensures r == Lookup(m, order, entry)
  {
    var i := 0;
    while i < |order|
      invariant 0 <= i <= |order|
      invariant FirstCaseMatch(order, entry, 0) == FirstCaseMatch(order, entry, i)
    {
      if CaseEq(order[i], entry) {
        return Some(m[order[i]]);
      }
      i := i + 1;
    }
    return None;
  }

  /** `key` is the only key of `m` equal to `entry` ignoring case. */
  predicate Unique(m: HeaderFields, key: string, entry: string)
  {
    forall k :: k in m && CaseEq(k, entry) ==> k == key
  }

  /**
   * The meaning of `valueOf`: nil exactly when no key matches ignoring case;
   * otherwise the values of some matching key; and when only one key
   * matches, its values whatever the iteration order.
   */
  lemma LookupMeaning(m: HeaderFields, order: seq<string>, entry: string)
    requires Enumerates(order, m)
    ensures Lookup(m, order, entry).None? <==> forall k :: k in m ==> !CaseEq(k, entry)
    ensures Lookup(m, order, entry).Some? ==>
      exists k :: k in m && CaseEq(k, entry) && Lookup(m, order, entry).value == m[k]
    ensures forall key :: key in m && CaseEq(key, entry) && Unique(m, key, entry) ==>
      Lookup(m, order, entry) == Some(m[key])
  {
    var f := FirstCaseMatch(order, entry, 0);
    if f.None? {
      forall k | k in m ensures !CaseEq(k, entry) {
        var i :| 0 <= i < |order| && order[i] == k;
      }
    } else {
      assert order[f.value] in m;
    }
  }

  /**
   * Lookup ignores case but insertion matches the exact key: after
   * `appendHeader(field:val:)`, a lookup under any casing of `field` sees
   * the appended value, provided no other key matches that casing.
   */
  lemma AppendThenLookup(m: HeaderFields, field: string, val: string, order: seq<string>, entry: string)
    requires Enumerates(order, AppendHeader(m, field, val))
    requires CaseEq(field, entry)
    requires forall k :: k in m && k != field ==> !CaseEq(k, entry)
    ensures Lookup(AppendHeader(m, field, val), order, entry) ==
      Some((if field in m then m[field] else []) + [val])
  {
    AppendHeaderSpec(m, field, val);
    LookupMeaning(AppendHeader(m, field, val), order, entry);
  }

  /** Appending under a new casing of an existing key creates a second key. */
  lemma AppendOtherCasing(m: HeaderFields, field: string, val: string, existing: string)
    requires existing in m && field !in m
    ensures AppendHeader(m, field, val)[existing] == m[existing]
    ensures |AppendHeader(m, field, val).Keys| == |m.Keys| + 1
  {
  }

  /** Some value of the field matched by `field` equals `val` ignoring case. */
  predicate HasValue(m: HeaderFields, order: seq<string>, val: string, field: string)
    requires forall i :: 0 <= i < |order| ==> order[i] in m
  {
    var vals := Lookup(m, order, field);
    vals.Some? && exists i :: 0 <= i < |vals.value| && CaseEq(vals.value[i], val)
  }

  /** `exist(valueOf:inField:)`: a whole-value comparison ignoring case. */
  method Exist(m: HeaderFields, order: seq<string>, val: string, field: string) returns (r: bool)
    requires Enumerates(order, m)
    ensures r == HasValue(m, order, val, field)
  {
    var vals := ValueOf(m, order, field);
    if vals.None? {
      return false;
    }
    var i := 0;
    while i < |vals.value|
      invariant 0 <= i <= |vals.value|
      invariant forall j :: 0 <= j < i ==> !CaseEq(vals.value[j], val)
    {
      if CaseEq(vals.value[i], val) {
        return true;
      }
      i := i + 1;
    }
    return false;
  }

  /** `exist` does not look for substrings: `"gzip, chunked"` does not contain the value `"chunked"`. */
  lemma ExistWholeValue()
    ensures !HasValue(map[TransferEncoding := ["gzip, chunked"]], [TransferEncoding], "chunked", TransferEncoding)
    ensures HasValue(map[TransferEncoding := ["gzip", "Chunked"]], [TransferEncoding], "chunked", "transfer-encoding")
  {
    var m := map[TransferEncoding := ["gzip", "Chunked"]];
    assert CaseEq(TransferEncoding, "transfer-encoding");
    assert CaseEq(m[TransferEncoding][1], "chunked");
  }
}
