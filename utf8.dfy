/**
 * The UTF-8 text layer: `String.data(using: .utf8)` (always succeeds) and
 * `String(data:encoding: .utf8)` (fails on ill-formed input). Decoding
 * accepts exactly the well-formed byte sequences of Table 3-7 of the Unicode
 * Standard; Dafny's `char` is a Unicode scalar value.
 */
module Utf8 {
  import opened Wrappers
  import opened Bytes

  predicate IsCont(b: int) { 0x80 <= b <= 0xBF }

  /** The UTF-8 form of one scalar value. */
  function EncodeChar(c: char): (b: Bytes)
    ensures 1 <= |b| <= 4
    ensures (c as int < 0x80) == (b == [c as int])
    ensures c as int >= 0x80 ==> forall i :: 0 <= i < |b| ==> b[i] >= 0x80
  {
    var n := c as int;
    if n < 0x80 then [n]
    else if n < 0x800 then [0xC0 + n / 64, 0x80 + n % 64]
    else if n < 0x1_0000 then [0xE0 + n / 4096, 0x80 + (n / 64) % 64, 0x80 + n % 64]
    else [0xF0 + n / 0x4_0000, 0x80 + (n / 4096) % 64, 0x80 + (n / 64) % 64, 0x80 + n % 64]
  }

  /** `s.data(using: .utf8)` */
  function Encode(s: string): Bytes
  {
    if s == [] then [] else EncodeChar(s[0]) + Encode(s[1..])
  }

  predicate Second3(b0: int, b1: int)
  {
    if b0 == 0xE0 then 0xA0 <= b1 <= 0xBF
    else if b0 == 0xED then 0x80 <= b1 <= 0x9F
    else IsCont(b1)
  }

  predicate Second4(b0: int, b1: int)
  {
    if b0 == 0xF0 then 0x90 <= b1 <= 0xBF
    else if b0 == 0xF4 then 0x80 <= b1 <= 0x8F
    else IsCont(b1)
  }

  /** The byte at `i`, or 0 past the end. */
  function At(b: Bytes, i: nat): Byte
  {
    if i < |b| then b[i] else 0
  }

  /** The length of the sequence a lead byte starts, or 0 for a byte no sequence starts with. */
  function LeadWidth(b0: int): nat
  {
    if b0 < 0x80 then 1
    else if 0xC2 <= b0 <= 0xDF then 2
    else if 0xE0 <= b0 <= 0xEF then 3
    else if 0xF0 <= b0 <= 0xF4 then 4
    else 0
  }

  /** The bytes after the lead byte are those Table 3-7 allows. */
  predicate WellFormedTail(b0: int, b1: int, b2: int, b3: int, w: nat)
  {
    && (w == 2 ==> IsCont(b1))
    && (w == 3 ==> Second3(b0, b1) && IsCont(b2))
    && (w == 4 ==> Second4(b0, b1) && IsCont(b2) && IsCont(b3))
  }

  function Scalar(b0: int, b1: int, b2: int, b3: int, w: nat): int
  {
    if w == 1 then b0
    else if w == 2 then (b0 - 0xC0) * 64 + (b1 - 0x80)
    else if w == 3 then (b0 - 0xE0) * 4096 + (b1 - 0x80) * 64 + (b2 - 0x80)
    else (b0 - 0xF0) * 0x4_0000 + (b1 - 0x80) * 4096 + (b2 - 0x80) * 64 + (b3 - 0x80)
  }

  /** The scalar value encoded at the start of `b` and the number of bytes it takes. */
  function DecodeFirst(b: Bytes): (r: Option<(char, nat)>)
    requires |b| > 0
    ensures r.Some? ==> 1 <= r.value.1 <= |b|
  {
    var b0, b1, b2, b3 := b[0] as int, At(b, 1), At(b, 2), At(b, 3);
    var w := LeadWidth(b0);
    if w == 0 || |b| < w || !WellFormedTail(b0, b1, b2, b3, w) then None
    else
      var n := Scalar(b0, b1, b2, b3, w);
      if 0 <= n < 0xD800 || 0xE000 <= n < 0x11_0000 then Some((n as char, w)) else None
  }

  /** `String(data: b, encoding: .utf8)` */
  function Decode(b: Bytes): Option<string>
    decreases |b|, 1
  {
    if b == [] then Some([]) else DecodeStep(b)
  }

  /** A non-empty `b`: its first scalar value, then the decoding of the rest. */
  function DecodeStep(b: Bytes): Option<string>
    requires |b| > 0
    decreases |b|, 0
  {
    match DecodeFirst(b)
    case None => None
    case Some((c, n)) =>
      match Decode(b[n..])
      case None => None
      case Some(s) => Some([c] + s)
  }

  predicate IsAscii(s: string)
  {
    forall i :: 0 <= i < |s| ==> s[i] as int < 0x80
  }

  /** `String(data: b, encoding: .ascii)`: only bytes below 0x80 are ASCII. */
  function AsciiDecode(b: Bytes): (r: Option<string>)
    ensures r.Some? ==> |r.value| == |b| && forall i :: 0 <= i < |b| ==> r.value[i] as int == b[i]
    ensures r.None? <==> exists i :: 0 <= i < |b| && b[i] >= 0x80
  {
    if forall i :: 0 <= i < |b| ==> b[i] < 0x80
    then Some(seq(|b|, i requires 0 <= i < |b| => b[i] as char))
    else None
  }

  lemma {:induction false} EncodeAppend(a: string, b: string)
    ensures Encode(a + b) == Encode(a) + Encode(b)
  {
    if a == [] {
      assert a + b == b;
    } else {
      assert (a + b)[0] == a[0] && (a + b)[1..] == a[1..] + b;
      EncodeAppend(a[1..], b);
    }
  }

  /** A byte below 0x80 occurs in the encoding only where its character occurs in the text. */
  lemma {:induction false} EncodeAsciiByte(s: string, x: Byte)
    requires x < 0x80
    requires x as char !in s
    ensures x !in Encode(s)
  {
    if s != [] {
      EncodeAsciiByte(s[1..], x);
      assert x !in EncodeChar(s[0]);
    }
  }

  /** On ASCII text the encoding is the character codes themselves. */
  lemma {:induction false} EncodeAscii(s: string)
    requires IsAscii(s)
    ensures |Encode(s)| == |s|
    ensures forall i :: 0 <= i < |s| ==> Encode(s)[i] == s[i] as int
  {
    if s != [] {
      EncodeAscii(s[1..]);
    }
  }

  lemma DivMod3(n: nat)
    requires n < 0x1_0000
    ensures n == (n / 4096) * 4096 + ((n / 64) % 64) * 64 + n % 64
  {
    var q := n / 64;
    assert n == q * 64 + n % 64;
    assert q == (q / 64) * 64 + q % 64;
    assert q / 64 == n / 4096;
  }

  lemma DivMod4(n: nat)
    requires n < 0x11_0000
    ensures n == (n / 0x4_0000) * 0x4_0000 + ((n / 4096) % 64) * 4096 + ((n / 64) % 64) * 64 + n % 64
  {
    var q := n / 64;
    var p := q / 64;
    assert n == q * 64 + n % 64;
    assert q == p * 64 + q % 64;
    assert p == (p / 64) * 64 + p % 64;
    assert p == n / 4096;
    assert p / 64 == n / 0x4_0000;
  }

  /** Decoding the start of an encoded character gives that character back. */
  lemma DecodeFirstEncodeChar(c: char, rest: Bytes)
    ensures DecodeFirst(EncodeChar(c) + rest) == Some((c, |EncodeChar(c)|))
  {
    var n := c as int;
    var b := EncodeChar(c) + rest;
    if n < 0x80 {
    } else if n < 0x800 {
      assert n == (n / 64) * 64 + n % 64;
    } else if n < 0x1_0000 {
      DivMod3(n);
      assert b[0] == 0xE0 + n / 4096 && b[1] == 0x80 + (n / 64) % 64;
      if n / 4096 == 0 {
        assert n / 64 >= 32;
      } else if n / 4096 == 13 {
        assert n < 0xD800;
        assert (n / 64) % 64 == n / 64 - 832;
      }
    } else {
      DivMod4(n);
      assert b[0] == 0xF0 + n / 0x4_0000 && b[1] == 0x80 + (n / 4096) % 64;
      if n / 0x4_0000 == 0 {
        assert n / 4096 >= 16;
      } else if n / 0x4_0000 == 4 {
        assert (n / 4096) % 64 == n / 4096 - 256;
      }
    }
  }

  /** Decoding undoes encoding: `String(data: s.data(using: .utf8)!, encoding: .utf8) == s`. */
  lemma {:induction false} DecodeEncode(s: string)
    ensures Decode(Encode(s)) == Some(s)
  {
    if s != [] {
      var e := EncodeChar(s[0]);
      DecodeFirstEncodeChar(s[0], Encode(s[1..]));
      assert (e + Encode(s[1..]))[|e|..] == Encode(s[1..]);
      DecodeEncode(s[1..]);
      assert [s[0]] + s[1..] == s;
    }
  }
}
