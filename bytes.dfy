/**
 * Raw message bytes (`Data`) and the one `DataReader` operation the codec
 * uses, `nextSegmentOfData(separatedBy: Data.crlf)`. The reader library is not
 * part of this model; its behaviour is taken to be: the bytes from the cursor
 * up to the next CR LF, with the cursor moved past that CR LF, or nothing if
 * no CR LF remains.
 */
module Bytes {
  import opened Wrappers

  type Byte = b: int | 0 <= b < 256
  type Bytes = seq<Byte>

  const CR: Byte := 0x0D
  const LF: Byte := 0x0A
  /** `Data.crlf` */
  const CRLF: Bytes := [CR, LF]

  /** A CR LF pair starts at index `i` of `data`. */
  predicate CrlfAt(data: Bytes, i: int)
  {
    0 <= i && i + 1 < |data| && data[i] == CR && data[i + 1] == LF
  }

  /** The first index at or after `from` where a CR LF pair starts. */
  function FindCrlf(data: Bytes, from: nat): (r: Option<nat>)
    ensures r.Some? ==> from <= r.value && r.value + 1 < |data|
    decreases |data| - from
  {
    if from + 1 >= |data| then None
    else if data[from] == CR && data[from + 1] == LF then Some(from)
    else FindCrlf(data, from + 1)
  }

  /** `FindCrlf` finds the first CR LF pair at or after `from`, and none when there is none. */
  lemma {:induction false} FindCrlfSpec(data: Bytes, from: nat)
    ensures FindCrlf(data, from).Some? ==> CrlfAt(data, FindCrlf(data, from).value)
    ensures FindCrlf(data, from).Some? ==> forall j :: from <= j < FindCrlf(data, from).value ==> !CrlfAt(data, j)
    ensures FindCrlf(data, from).None? ==> forall j :: from <= j ==> !CrlfAt(data, j)
    decreases |data| - from
  {
    if from + 1 < |data| && !(data[from] == CR && data[from + 1] == LF) {
      FindCrlfSpec(data, from + 1);
    }
  }

  /** A CR LF pair at `i` with none between `from` and `i` is the one `FindCrlf` finds. */
  lemma {:induction false} FindCrlfFirst(data: Bytes, from: nat, i: nat)
    requires from <= i && CrlfAt(data, i)
    requires forall j :: from <= j < i ==> !CrlfAt(data, j)
    ensures FindCrlf(data, from) == Some(i)
    decreases i - from
  {
    if from < i {
      assert !CrlfAt(data, from);
      FindCrlfFirst(data, from + 1, i);
    }
  }

  /**
   * `nextSegmentOfData(separatedBy: Data.crlf)` on a reader over `data` whose
   * cursor is at `offset`: the segment and the new cursor.
   */
  function NextSegment(data: Bytes, offset: nat): (r: Option<(Bytes, nat)>)
    requires offset <= |data|
    ensures r.Some? ==> offset + 2 <= r.value.1 <= |data| && |r.value.0| == r.value.1 - offset - 2
  {
    match FindCrlf(data, offset)
    case None => None
    case Some(i) => Some((data[offset..i], i + 2))
  }

  /**
   * The segment is every byte up to the first CR LF after the cursor, and
   * the cursor moves past that CR LF; with no CR LF left there is none.
   */
  lemma NextSegmentSpec(data: Bytes, offset: nat)
    requires offset <= |data|
    ensures var r := NextSegment(data, offset);
      && (r.Some? ==> data[offset..r.value.1] == r.value.0 + CRLF)
      && (r.Some? ==> forall j :: offset <= j < r.value.1 - 2 ==> !CrlfAt(data, j))
      && (r.None? <==> forall j :: offset <= j ==> !CrlfAt(data, j))
  {
    FindCrlfSpec(data, offset);
    var r := NextSegment(data, offset);
    if r.Some? {
      var i := r.value.1 - 2;
      assert CrlfAt(data, i);
      assert data[offset..r.value.1] == data[offset..i] + data[i..i + 2];
    }
  }

  /**
   * The bytes of `b` sit in `data` from index `offset` on, stated byte by
   * byte so that the verifier looks only as far into `data` as a proof
   * needs; `BytesAtSlice` gives the slice form.
   */
  predicate BytesAt(data: Bytes, offset: nat, b: Bytes)
    decreases |b|
  {
    offset + |b| <= |data| && (|b| == 0 || (data[offset] == b[0] && BytesAt(data, offset + 1, b[1..])))
  }

  lemma {:induction false} BytesAtSlice(data: Bytes, offset: nat, b: Bytes)
    ensures BytesAt(data, offset, b) <==> offset + |b| <= |data| && data[offset..offset + |b|] == b
    decreases |b|
  {
    if |b| > 0 && offset + |b| <= |data| {
      BytesAtSlice(data, offset + 1, b[1..]);
      assert data[offset..offset + |b|] == [data[offset]] + data[offset + 1..offset + |b|];
      assert b == [b[0]] + b[1..];
    }
  }

  /** A sequence is found at the start of any sequence it begins. */
  lemma BytesAtPrefix(a: Bytes, t: Bytes)
    ensures BytesAt(a + t, 0, a)
  {
    assert (a + t)[..|a|] == a;
    BytesAtSlice(a + t, 0, a);
  }

  /** Bytes `a + b` at `offset` are `a` at `offset`, then `b` right after it. */
  lemma BytesAtSplit(data: Bytes, offset: nat, a: Bytes, b: Bytes)
    requires BytesAt(data, offset, a + b)
    ensures BytesAt(data, offset, a) && BytesAt(data, offset + |a|, b)
  {
    BytesAtSlice(data, offset, a + b);
    assert data[offset..offset + |a|] == (a + b)[..|a|];
    assert data[offset + |a|..offset + |a| + |b|] == (a + b)[|a|..];
    BytesAtSlice(data, offset, a);
    BytesAtSlice(data, offset + |a|, b);
  }

  /** Two sequences found one after the other form their concatenation. */
  lemma BytesAtJoin(data: Bytes, offset: nat, a: Bytes, b: Bytes)
    requires BytesAt(data, offset, a) && BytesAt(data, offset + |a|, b)
    ensures BytesAt(data, offset, a + b)
  {
    BytesAtSlice(data, offset, a);
    BytesAtSlice(data, offset + |a|, b);
    assert data[offset..offset + |a| + |b|] == data[offset..offset + |a|] + data[offset + |a|..offset + |a| + |b|];
    BytesAtSlice(data, offset, a + b);
  }

  /** Bytes found at `offset` are the bytes of `data` there, one by one. */
  lemma BytesAtIndex(data: Bytes, offset: nat, b: Bytes)
    requires BytesAt(data, offset, b)
    ensures offset + |b| <= |data|
    ensures forall k :: 0 <= k < |b| ==> data[offset + k] == b[k]
  {
    BytesAtSlice(data, offset, b);
    forall k | 0 <= k < |b|
      ensures data[offset + k] == b[k]
    {
      assert data[offset..offset + |b|][k] == data[offset + k];
    }
  }

  /** Where `seg` and then CR LF sit at the cursor, and `seg` holds no CR, the segment read is `seg`. */
  lemma NextSegmentAt(data: Bytes, offset: nat, seg: Bytes)
    requires BytesAt(data, offset, seg + CRLF) && CR !in seg
    ensures NextSegment(data, offset) == Some((seg, offset + |seg| + 2))
  {
    var w, i := seg + CRLF, offset + |seg|;
    BytesAtIndex(data, offset, w);
    assert data[offset + |seg|] == w[|seg|] && data[offset + |seg| + 1] == w[|seg| + 1];
    forall j | offset <= j < i
      ensures !CrlfAt(data, j)
    {
      assert data[offset + (j - offset)] == w[j - offset] == seg[j - offset];
    }
    FindCrlfFirst(data, offset, i);
    forall k | 0 <= k < |seg|
      ensures data[offset..i][k] == seg[k]
    {
      assert data[offset + k] == w[k];
    }
    assert data[offset..i] == seg;
  }
}
