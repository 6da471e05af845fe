/**
 * The string operations the codec relies on: `range(of:)`,
 * `components(separatedBy:)`, `hasPrefix`, `caseInsensitiveCompare` and
 * string interpolation of integers, and Swift's `Int(_:radix:)`.
 */
module Text {
  import opened Wrappers

  /** `sep` occurs in `s` starting at index `i`. */
  predicate OccursAt(s: string, sep: string, i: int)
  {
    0 <= i && i + |sep| <= |s| && s[i..i + |sep|] == sep
  }

  /** The first occurrence of `sep` in `s` at or after index `from`. */
  function FindFrom(s: string, sep: string, from: nat): (r: Option<nat>)
    ensures r.Some? ==> from <= r.value && OccursAt(s, sep, r.value)
    ensures r.Some? ==> forall j :: from <= j < r.value ==> !OccursAt(s, sep, j)
    ensures r.None? ==> forall j :: from <= j ==> !OccursAt(s, sep, j)
    decreases |s| - from
  {
    if from + |sep| > |s| then None
    else if s[from..from + |sep|] == sep then Some(from)
    else FindFrom(s, sep, from + 1)
  }

  /** `s.range(of: sep)?.lowerBound`, as an offset. */
  function Find(s: string, sep: string): Option<nat>
  {
    FindFrom(s, sep, 0)
  }

  /** `s.components(separatedBy: sep)` */
  function Split(s: string, sep: string): (r: seq<string>)
    requires |sep| > 0
    ensures |r| >= 1
    decreases |s|
  {
    match Find(s, sep)
    case None => [s]
    case Some(i) => [s[..i]] + Split(s[i + |sep|..], sep)
  }

  /** The pieces glued back together with `sep` between them. */
  function Join(pieces: seq<string>, sep: string): string
    requires |pieces| >= 1
  {
    if |pieces| == 1 then pieces[0] else pieces[0] + sep + Join(pieces[1..], sep)
  }

  /** An occurrence inside a prefix is an occurrence in the whole text. */
  lemma OccursInPrefix(s: string, n: nat, sep: string, j: int)
    requires n <= |s| && OccursAt(s[..n], sep, j)
    ensures OccursAt(s, sep, j)
  {
    assert s[j..j + |sep|] == s[..n][j..j + |sep|];
  }

  /** Splitting loses nothing: the pieces joined by the separator are the original text. */
  lemma {:induction false} SplitJoin(s: string, sep: string)
    requires |sep| > 0
    ensures Join(Split(s, sep), sep) == s
    decreases |s|
  {
    var f := Find(s, sep);
    if f.None? {
      assert Split(s, sep) == [s];
    } else {
      var i := f.value;
      var rest := s[i + |sep|..];
      var tail := Split(rest, sep);
      SplitJoin(rest, sep);
      var r := Split(s, sep);
      assert r == [s[..i]] + tail;
      assert Join(r, sep) == s[..i] + sep + Join(tail, sep);
      assert s[i..i + |sep|] == sep;
      assert s == s[..i] + s[i..i + |sep|] + rest;
    }
  }

  /** No piece of a split holds the separator. */
  lemma {:induction false} SplitPiecesFree(s: string, sep: string, k: nat)
    requires |sep| > 0 && k < |Split(s, sep)|
    ensures Find(Split(s, sep)[k], sep).None?
    decreases |s|
  {
    match Find(s, sep)
    case None =>
    case Some(i) =>
      var rest := s[i + |sep|..];
      if k == 0 {
        forall j | 0 <= j ensures !OccursAt(s[..i], sep, j) {
          if OccursAt(s[..i], sep, j) {
            OccursInPrefix(s, i, sep, j);
          }
        }
      } else {
        SplitPiecesFree(rest, sep, k - 1);
      }
  }

  /** Text that splits into one piece does not hold the separator character. */
  lemma SplitOneFree(s: string, c: char)
    requires |Split(s, [c])| == 1
    ensures c !in s
  {
    if c in s {
      var k :| 0 <= k < |s| && s[k] == c;
      assert s[k..k + 1] == [c];
      assert OccursAt(s, [c], k);
    }
  }

  /** Text with no occurrence of the separator is one piece. */
  lemma SplitNone(s: string, sep: string)
    requires |sep| > 0 && Find(s, sep).None?
    ensures Split(s, sep) == [s]
  {
  }

  /** A separator that follows separator-free text is the first occurrence. */
  lemma {:induction false} FindAfterFree(a: string, c: char, b: string)
    requires c !in a
    ensures Find(a + [c] + b, [c]) == Some(|a|)
  {
    var s := a + [c] + b;
    assert OccursAt(s, [c], |a|);
    forall j | 0 <= j < |a| ensures !OccursAt(s, [c], j) {
      assert s[j] == a[j];
      assert s[j..j + 1] == [s[j]];
    }
  }

  /** Splitting on one character: the first piece is the text before the first separator. */
  lemma {:induction false} SplitCons(a: string, c: char, b: string)
    requires c !in a
    ensures Split(a + [c] + b, [c]) == [a] + Split(b, [c])
  {
    var s := a + [c] + b;
    FindAfterFree(a, c, b);
    assert s[..|a|] == a && s[|a| + 1..] == b;
  }

  /** Text without the separator character splits into itself. */
  lemma {:induction false} SplitFree(a: string, c: char)
    requires c !in a
    ensures Split(a, [c]) == [a]
  {
    forall j | 0 <= j ensures !OccursAt(a, [c], j) {
      if 0 <= j < |a| {
        assert a[j..j + 1] == [a[j]];
      }
    }
  }

  /** `": "` is found right after a key that does not contain it. */
  lemma {:induction false} FindColonSpace(key: string, val: string)
    requires Find(key, ": ").None?
    ensures Find(key + ": " + val, ": ") == Some(|key|)
  {
    var s := key + ": " + val;
    assert s[|key|..|key| + 2] == ": ";
    assert OccursAt(s, ": ", |key|);
    forall j | 0 <= j < |key| ensures !OccursAt(s, ": ", j) {
      if j + 2 <= |key| {
        assert s[j..j + 2] == key[j..j + 2];
        assert !OccursAt(key, ": ", j);
      } else {
        assert s[j + 1] == ':';
        assert s[j..j + 2][1] == ':';
      }
    }
    var f := Find(s, ": ");
    assert f.Some? && f.value <= |key|;
  }

  /** No element occurs twice: each is absent from the elements before it. */
  predicate Distinct(s: seq<string>)
  {
    |s| == 0 || (s[|s| - 1] !in s[..|s| - 1] && Distinct(s[..|s| - 1]))
  }

  /** Distinct elements sit at distinct positions. */
  lemma {:induction false} DistinctIndex(s: seq<string>, i: nat, j: nat)
    requires Distinct(s) && i < j < |s|
    ensures s[i] != s[j]
    decreases |s|
  {
    var n := |s| - 1;
    if j < n {
      DistinctIndex(s[..n], i, j);
    } else {
      assert s[i] == s[..n][i];
    }
  }

  /**
   * `order` is one iteration order of the dictionary `m`: every key exactly
   * once. Swift leaves the order unspecified, so every claim about a walk
   * over a dictionary holds for any such `order`.
   */
  predicate Enumerates<V>(order: seq<string>, m: map<string, V>)
  {
    && Distinct(order)
    && (forall k :: k in m ==> k in order)
    && (forall i :: 0 <= i < |order| ==> order[i] in m)
  }

  /** Text without the first character of a separator does not contain the separator. */
  lemma FindAbsent(s: string, sep: string)
    requires |sep| > 0 && sep[0] !in s
    ensures Find(s, sep).None?
  {
    forall j | 0 <= j ensures !OccursAt(s, sep, j) {
    }
  }

  /** A separator that occurs anywhere cuts the text into at least two pieces. */
  lemma SplitAtOccurrence(s: string, sep: string, k: nat)
    requires |sep| > 0 && OccursAt(s, sep, k)
    ensures |Split(s, sep)| >= 2
  {
  }

  /** Splitting on `"; "` after a first piece without `;`: that piece, then the split of the rest. */
  lemma SplitSemicolon(a: string, b: string)
    requires ';' !in a
    ensures Split(a + "; " + b, "; ") == [a] + Split(b, "; ")
  {
    var s := a + "; " + b;
    assert s[|a|..|a| + 2] == "; ";
    assert OccursAt(s, "; ", |a|);
    forall j | 0 <= j < |a| ensures !OccursAt(s, "; ", j) {
      assert s[j] == a[j];
    }
    assert s[..|a|] == a && s[|a| + 2..] == b;
  }

  /** The distinct elements of a sequence are as many as its length. */
  lemma {:induction false} DistinctCard(s: seq<string>)
    requires Distinct(s)
    ensures |set x | x in s| == |s|
    decreases |s|
  {
    if |s| > 0 {
      var n := |s| - 1;
      DistinctCard(s[..n]);
      assert (set x | x in s) == (set x | x in s[..n]) + {s[n]} by {
        assert s == s[..n] + [s[n]];
      }
    }
  }

  /** An iteration order lists exactly as many keys as the map has. */
  lemma EnumeratesCount<V>(order: seq<string>, m: map<string, V>)
    requires Enumerates(order, m)
    ensures |order| == |m|
  {
    DistinctCard(order);
    assert m.Keys == set x | x in order;
  }

  /**
   * `s.hasPrefix(p)`, as a test on the characters, in the Swift 3 standard
   * library this code is written for: there the empty string is a prefix of
   * nothing, not even of `""`.
   */
  predicate HasPrefix(s: string, p: string)
  {
    0 < |p| <= |s| && s[..|p|] == p
  }

  /** ASCII lower-casing of one character. */
  function Lower(c: char): char
  {
    if 'A' <= c <= 'Z' then (c as int + 32) as char else c
  }

  /** `a.caseInsensitiveCompare(b) == .orderedSame`, with ASCII case folding. */
  predicate CaseEq(a: string, b: string)
  {
    |a| == |b| && forall i :: 0 <= i < |a| ==> Lower(a[i]) == Lower(b[i])
  }

  lemma CaseEqRefl(a: string)
    ensures CaseEq(a, a)
  {
  }

  lemma CaseEqSym(a: string, b: string)
    requires CaseEq(a, b)
    ensures CaseEq(b, a)
  {
  }

  // ---- integers -------------------------------------------------------

  /** Swift's `Int` on a 64-bit platform. */
  type Int64 = x: int | -0x8000_0000_0000_0000 <= x < 0x8000_0000_0000_0000

  function DigitChar(d: nat): char
    requires d < 10
  {
    ('0' as int + d) as char
  }

  /** Decimal digits of a natural number. */
  function NatToString(n: nat): (s: string)
    ensures |s| >= 1
    ensures forall i :: 0 <= i < |s| ==> '0' <= s[i] <= '9'
    decreases n
  {
    if n < 10 then [DigitChar(n)] else NatToString(n / 10) + [DigitChar(n % 10)]
  }

  /** `"\(i)"` */
  function IntToString(i: int): (s: string)
    ensures |s| >= 1
    ensures forall k :: 0 <= k < |s| ==> s[k] == '-' || '0' <= s[k] <= '9'
  {
    if i < 0 then "-" + NatToString(-i) else NatToString(i)
  }

  /** The value of one digit in base `radix`: `0`-`9`, then `a`-`z` or `A`-`Z`. */
  function DigitValue(c: char, radix: nat): (r: Option<nat>)
    ensures r.Some? ==> r.value < radix
  {
    var v :=
      if '0' <= c <= '9' then c as int - '0' as int
      else if 'a' <= c <= 'z' then c as int - 'a' as int + 10
      else if 'A' <= c <= 'Z' then c as int - 'A' as int + 10
      else radix;
    if v < radix then Some(v) else None
  }

  /** The value of a digit string read from left to right, or None if a character is not a digit. */
  function DigitsValue(s: string, radix: nat): Option<nat>
    decreases |s|
  {
    if s == [] then Some(0)
    else match (DigitsValue(s[..|s| - 1], radix), DigitValue(s[|s| - 1], radix))
      case (Some(hi), Some(d)) => Some(hi * radix + d)
      case _ => None
  }

  /**
   * `Int(s, radix: radix)`: an optional `+` or `-`, then one or more digits,
   * and a value that fits in 64 bits; nil otherwise.
   */
  function ParseInt(s: string, radix: nat): Option<Int64>
  {
    var (negative, digits) :=
      if |s| > 0 && (s[0] == '+' || s[0] == '-') then (s[0] == '-', s[1..]) else (false, s);
    if digits == [] then None
    else match DigitsValue(digits, radix)
      case None => None
      case Some(v) =>
        var x := if negative then -(v as int) else v as int;
        if -0x8000_0000_0000_0000 <= x < 0x8000_0000_0000_0000 then Some(x) else None
  }

  lemma {:induction false} DigitsOfNat(n: nat)
    ensures DigitsValue(NatToString(n), 10) == Some(n)
    decreases n
  {
    var s := NatToString(n);
    if n >= 10 {
      DigitsOfNat(n / 10);
      assert s[..|s| - 1] == NatToString(n / 10);
    }
  }

  /** Printing then parsing an integer gives it back: `Int("\(i)") == i`. */
  lemma ParseIntToString(i: Int64)
    ensures ParseInt(IntToString(i), 10) == Some(i)
  {
    var s := IntToString(i);
    if i < 0 {
      var n: nat := -(i as int);
      DigitsOfNat(n);
      assert s == "-" + NatToString(n);
      assert s[0] == '-' && s[1..] == NatToString(n);
    } else {
      DigitsOfNat(i);
      assert s == NatToString(i);
      assert s[0] != '+' && s[0] != '-';
    }
  }

  /** The decimal form of an integer contains no space, dot, CR or LF. */
  lemma IntToStringPlain(i: int)
    ensures ' ' !in IntToString(i) && '.' !in IntToString(i)
    ensures '\r' !in IntToString(i) && '\n' !in IntToString(i)
  {
    var s := IntToString(i);
    forall k | 0 <= k < |s| ensures s[k] != ' ' && s[k] != '.' && s[k] != '\r' && s[k] != '\n' {
    }
  }
}
