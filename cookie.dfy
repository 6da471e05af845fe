/**
 * `Cookie`: the value of one `Set-Cookie` header (section 4.1 of RFC 6265),
 * as both response generations print it.
 */
module Cookies {
  import opened Text

  datatype Cookie = Cookie(key: string, val: string, attributes: map<string, string>)

  /** `CommonCookieAttributes.httpOnly` and `.secure`: flag attributes with an empty value. */
  const HttpOnly: map<string, string> := map["HttpOnly" := ""]
  const Secure: map<string, string> := map["Secure" := ""]

  /** `CommonCookieAttributes.Keys` */
  const Expires: string := "Expires"
  const Path: string := "Path"
  const Domain: string := "Domain"

  /** The cookie's own `key=val`, or the bare key when `val` is empty. */
  function Segment(c: Cookie): string
  {
    if c.val == "" then c.key else c.key + "=" + c.val
  }

  /** `attributeToString(_:)`: the attribute passed in is not read; the text is the cookie's own segment. */
  function AttributeToString(c: Cookie, attribute: (string, string)): string
  {
    Segment(c)
  }

  /** `description`: `key=val`, then `"; "` and `attributeToString` once per attribute, in iteration order. */
  function Description(c: Cookie, order: seq<string>): string
    requires forall i :: 0 <= i < |order| ==> order[i] in c.attributes
  {
    if |order| == 0 then c.key + "=" + c.val
    else
      var n := |order| - 1;
      Description(c, order[..n]) + "; " + AttributeToString(c, (order[n], c.attributes[order[n]]))
  }

  /** `n` copies of `"; " + seg`. */
  function Repeat(seg: string, n: nat): string
  {
    if n == 0 then "" else Repeat(seg, n - 1) + "; " + seg
  }

  /** Every attribute prints the same segment, whatever its own name and value. */
  lemma AttributeIgnored(c: Cookie, a: (string, string), b: (string, string))
    ensures AttributeToString(c, a) == AttributeToString(c, b) == Segment(c)
  {
  }

  /**
   * The description is `key=val` followed by exactly one `"; "`-prefixed
   * segment per attribute, and every segment is the cookie's own pair.
   */
  lemma {:induction false} DescriptionShape(c: Cookie, order: seq<string>)
    requires Enumerates(order, c.attributes)
    ensures Description(c, order) == c.key + "=" + c.val + Repeat(Segment(c), |c.attributes|)
  {
    EnumeratesCount(order, c.attributes);
    DescriptionRepeat(c, order);
  }

  lemma {:induction false} DescriptionRepeat(c: Cookie, order: seq<string>)
    requires forall i :: 0 <= i < |order| ==> order[i] in c.attributes
    ensures Description(c, order) == c.key + "=" + c.val + Repeat(Segment(c), |order|)
    decreases |order|
  {
    if |order| > 0 {
      var n := |order| - 1;
      DescriptionRepeat(c, order[..n]);
    }
  }

  /** A description always begins with `key=val`; with no attributes it is exactly that. */
  lemma DescriptionStart(c: Cookie, order: seq<string>)
    requires Enumerates(order, c.attributes)
    ensures HasPrefix(Description(c, order), c.key + "=" + c.val)
    ensures |c.attributes| == 0 ==> Description(c, order) == c.key + "=" + c.val
  {
    DescriptionShape(c, order);
    var kv := c.key + "=" + c.val;
    assert (kv + Repeat(Segment(c), |c.attributes|))[..|kv|] == kv;
  }

  /** `n` segments without `;` split off one by one. */
  lemma {:induction false} SplitRepeat(first: string, seg: string, n: nat)
    requires ';' !in first && ';' !in seg
    ensures Split(first + Repeat(seg, n), "; ") == [first] + seq(n, _ => seg)
    decreases n
  {
    if n == 0 {
      assert first + Repeat(seg, 0) == first;
      FindAbsent(first, "; ");
      SplitNone(first, "; ");
    } else {
      RepeatFront(seg, n);
      assert first + Repeat(seg, n) == first + "; " + (seg + Repeat(seg, n - 1));
      SplitSemicolon(first, seg + Repeat(seg, n - 1));
      SplitRepeat(seg, seg, n - 1);
      assert [seg] + seq(n - 1, _ => seg) == seq(n, _ => seg);
    }
  }

  /** The repeated segments, peeled from the front. */
  lemma {:induction false} RepeatFront(seg: string, n: nat)
    requires n > 0
    ensures Repeat(seg, n) == "; " + (seg + Repeat(seg, n - 1))
    decreases n
  {
    if n > 1 {
      RepeatFront(seg, n - 1);
    }
  }

  /**
   * Read back on `"; "`, a description without `;` in the key or value is
   * `key=val` and then one piece per attribute, each the cookie's own pair.
   */
  lemma DescriptionPieces(c: Cookie, order: seq<string>)
    requires Enumerates(order, c.attributes) && ';' !in c.key && ';' !in c.val
    ensures Split(Description(c, order), "; ") == [c.key + "=" + c.val] + seq(|c.attributes|, _ => Segment(c))
  {
    DescriptionShape(c, order);
    assert ';' !in c.key + "=" + c.val;
    assert ';' !in Segment(c);
    SplitRepeat(c.key + "=" + c.val, Segment(c), |c.attributes|);
  }

  /** `Cookie(key: "id", val: "7", attributes: httpOnly)` prints `id=7; id=7`: the flag's name is lost. */
  lemma ExampleHttpOnly()
    ensures Description(Cookie("id", "7", HttpOnly), ["HttpOnly"]) == "id=7; id=7"
  {
  }

  /** With an empty value every segment is the bare key. */
  lemma ExampleEmptyValue()
    ensures Description(Cookie("id", "", Secure), ["Secure"]) == "id=; id"
  {
  }
}
