/**
 The pieces the generated methods are made of: writing a field so that it ends where the
 previous one starts, adding up sizes, and reading a tag, a length-delimited field or an
 unknown one at an index that only moves forward.
 */
module Buffers {
  import opened Machine
  import opened Varint
  import opened Wire
  import opened Codec

  // ---------------------------------------------------------------------------------------
  // Writing backwards
  // ---------------------------------------------------------------------------------------

  // A writer gets a slice dAtA[lo..hi] and an index that moves down from hi. Every step down is
  // followed by an access at the new index, which panics when the index is below the slice;
  // the model then goes on with the index PANICKED and does nothing any more.

  const PANICKED := -1

  /** The index n bytes down from i. */
  function Back(lo: nat, i: int, n: nat): (j: int)
    ensures j == PANICKED || lo <= j <= i
  {
    if lo + n <= i then i - n else PANICKED
  }

  /** The slice ends in s, which starts at i; or there was no room for it. */
  ghost predicate Written(dAtA: array<byte>, lo: nat, i: int, hi: nat, s: bytes): (w: bool)
    reads dAtA
    ensures w ==> lo <= hi <= dAtA.Length <= MAX_INT && (i == PANICKED || lo <= i <= hi)
  {
    && lo <= hi <= dAtA.Length <= MAX_INT
    && i == Back(lo, hi, |s|)
    && (i != PANICKED ==> dAtA[i..hi] == s)
  }

  /** Nothing differs from before but the bytes from j on, or the slice when that panicked. */
  twostate predicate Untouched(dAtA: array<byte>, lo: nat, j: int, hi: nat)
    reads dAtA
  {
    forall k :: 0 <= k < dAtA.Length && (k < (if j == PANICKED then lo else j) || hi <= k) ==>
      dAtA[k] == old(dAtA[k])
  }

  /** `i -= len(s); copy(dAtA[i:], s)` in front of what dAtA[i..hi] holds already. */
  method PutBytes(dAtA: array<byte>, lo: nat, i: int, hi: nat, s: bytes, ghost tail: bytes) returns (j: int)
    requires Written(dAtA, lo, i, hi, tail)
    modifies dAtA
    ensures Written(dAtA, lo, j, hi, s + tail) && j <= i
    ensures Untouched(dAtA, lo, j, hi)
  {
    j := i - |s|;
    if j < lo {
      return PANICKED;
    }
    forall k | 0 <= k < |s| {
      dAtA[j + k] := s[k];
    }
    assert dAtA[j..i] == s && dAtA[i..hi] == tail;
    assert dAtA[j..hi] == dAtA[j..i] + dAtA[i..hi];
  }

  /** The runtime's writer, whose first access is at the lowest of its bytes. */
  method PutVarint(dAtA: array<byte>, lo: nat, i: int, hi: nat, v: u64, ghost tail: bytes) returns (j: int)
    requires Written(dAtA, lo, i, hi, tail)
    modifies dAtA
    ensures Written(dAtA, lo, j, hi, EncVarint(v) + tail) && j <= i
    ensures Untouched(dAtA, lo, j, hi)
  {
    hide EncVarint, SizeOfVarint;
    SizeOfVarintExact(v);
    if i - SizeOfVarint(v) < lo {
      return PANICKED;
    }
    ghost var before := dAtA[..];
    j := EncodeVarint(dAtA, i, v);
    forall k | 0 <= k < dAtA.Length && (k < j || i <= k) ensures dAtA[k] == before[k] {
      if k < j {
        assert dAtA[..j][k] == before[..j][k];
      } else {
        assert dAtA[i..][k - i] == before[i..][k - i];
      }
    }
    assert dAtA[i..hi] == before[i..hi];
    assert dAtA[j..hi] == dAtA[j..i] + dAtA[i..hi];
  }

  /** The unknown fields come first, at the end of the slice. */
  method PutUnknown(dAtA: array<byte>, lo: nat, hi: nat, u: bytes) returns (i: int)
    requires lo <= hi <= dAtA.Length <= MAX_INT
    modifies dAtA
    ensures Written(dAtA, lo, i, hi, EncRecs([]) + u)
    ensures Untouched(dAtA, lo, i, hi)
  {
    assert dAtA[hi..hi] == [];
    i := PutBytes(dAtA, lo, hi, hi, u, []);
    assert u + [] == EncRecs([]) + u;
  }

  /** `len(dAtA) - i`, unless the writer has panicked. */
  function Reported(hi: int, i: int): Option<nat>
    requires i <= hi
  {
    if i == PANICKED then None else Some(hi - i)
  }

  /** How many bytes a writer of s reports for a slice, unless it panics for want of room. */
  function Fits(lo: int, hi: int, s: bytes): Option<nat> {
    if |s| <= hi - lo then Some(|s|) else None
  }

  /** What a writer that has written s reports. */
  lemma Finished(dAtA: array<byte>, lo: nat, i: int, hi: nat, s: bytes)
    requires Written(dAtA, lo, i, hi, s)
    ensures Reported(hi, i) == Fits(lo, hi, s)
    ensures i != PANICKED ==> i == hi - |s| && dAtA[i..hi] == s
  {
  }

  lemma Regroup(a: bytes, b: bytes, c: bytes, d: bytes)
    ensures a + (b + (c + d)) == a + b + c + d
  {
  }

  lemma DelimParts(num: nat, s: bytes)
    ensures EncRec(DelimRec(num, s)) == EncVarint(8 * num + 2) + EncVarint(|s|) + s
  {
  }

  /** An index that has panicked stays so, whatever comes next. */
  lemma StaysPanicked(dAtA: array<byte>, lo: nat, hi: nat, s: bytes, tail: bytes)
    requires Written(dAtA, lo, PANICKED, hi, tail)
    ensures Written(dAtA, lo, PANICKED, hi, s + tail)
  {
  }

  /** A length-delimited field: the bytes, their length and the tag, back to front. */
  method PutDelim(dAtA: array<byte>, lo: nat, i: int, hi: nat, tag: bytes, s: bytes,
                  ghost num: nat, ghost tail: bytes)
    returns (j: int)
    requires Written(dAtA, lo, i, hi, tail) && tag == EncVarint(8 * num + 2)
    modifies dAtA
    ensures Written(dAtA, lo, j, hi, EncRec(DelimRec(num, s)) + tail) && j <= i
    ensures Untouched(dAtA, lo, j, hi)
  {
    hide EncVarint, EncRec;
    DelimParts(num, s);
    Regroup(tag, EncVarint(|s|), s, tail);
    j := PutBytes(dAtA, lo, i, hi, s, tail);
    if j == PANICKED {
      StaysPanicked(dAtA, lo, hi, tag + EncVarint(|s|), s + tail);
      assert tag + EncVarint(|s|) + (s + tail) == tag + EncVarint(|s|) + s + tail;
      return;
    }
    j := PutVarint(dAtA, lo, j, hi, |s|, s + tail);
    j := PutBytes(dAtA, lo, j, hi, tag, EncVarint(|s|) + (s + tail));
  }

  /** `if m.X != nil { ... }` for a length-delimited field, in front of the records `rest` and
      the unknown fields u. */
  method PutOptDelim(dAtA: array<byte>, lo: nat, i: int, hi: nat, tag: bytes, o: Option<bytes>,
                     ghost num: nat, ghost rest: seq<Rec>, ghost u: bytes)
    returns (j: int)
    requires Written(dAtA, lo, i, hi, EncRecs(rest) + u) && tag == EncVarint(8 * num + 2)
    modifies dAtA
    ensures Written(dAtA, lo, j, hi, EncRecs(OptDelim(num, o) + rest) + u) && j <= i
    ensures Untouched(dAtA, lo, j, hi)
  {
    hide EncVarint, EncRec, Written;
    j := i;
    OptDelimBytes(num, o, rest);
    if o.Some? {
      j := PutDelim(dAtA, lo, i, hi, tag, o.value, num, EncRecs(rest) + u);
      assert EncRec(DelimRec(num, o.value)) + (EncRecs(rest) + u) == EncRec(DelimRec(num, o.value)) + EncRecs(rest) + u;
    }
  }

  /** Length and tag in front of a nested message s that has been written already. */
  method PutHeader(dAtA: array<byte>, lo: nat, i: int, hi: nat, tag: bytes, size: nat,
                   ghost num: nat, ghost s: bytes, ghost tail: bytes)
    returns (j: int)
    requires Written(dAtA, lo, i, hi, s + tail) && size == |s| <= MAX_INT && tag == EncVarint(8 * num + 2)
    modifies dAtA
    ensures Written(dAtA, lo, j, hi, EncRec(DelimRec(num, s)) + tail) && j <= i
    ensures Untouched(dAtA, lo, j, hi)
  {
    hide EncVarint, EncRec, Written;
    DelimParts(num, s);
    j := PutVarint(dAtA, lo, i, hi, size, s + tail);
    j := PutBytes(dAtA, lo, j, hi, tag, EncVarint(|s|) + (s + tail));
    Regroup(tag, EncVarint(|s|), s, tail);
  }

  /** The writer of a nested message panicked, or never began. */
  lemma NestPanicked(dAtA: array<byte>, lo: nat, hi: nat, num: nat, s: bytes, tail: bytes)
    requires Written(dAtA, lo, PANICKED, hi, s + tail) || Written(dAtA, lo, PANICKED, hi, tail)
    ensures Written(dAtA, lo, PANICKED, hi, EncRec(DelimRec(num, s)) + tail)
  {
    hide EncVarint, EncRec;
    DelimParts(num, s);
  }

  /** The rest of a nested message, once its writer has reported for the slice dAtA[lo..i]. */
  method PutNested(dAtA: array<byte>, lo: nat, i: nat, hi: nat, tag: bytes, size: Option<nat>,
                   ghost num: nat, ghost s: bytes, ghost tail: bytes)
    returns (j: int)
    requires Written(dAtA, lo, i, hi, tail) && tag == EncVarint(8 * num + 2)
    requires size == Fits(lo, i, s) && (size.Some? ==> dAtA[i - size.value..i] == s)
    modifies dAtA
    ensures Written(dAtA, lo, j, hi, EncRec(DelimRec(num, s)) + tail) && j <= i
    ensures if size.None? then j == PANICKED else j <= i - size.value
    ensures Untouched(dAtA, lo, j, hi)
  {
    hide EncRec, EncVarint;
    if size.None? {
      NestPanicked(dAtA, lo, hi, num, s, tail);
      return PANICKED;
    }
    assert dAtA[i - size.value..hi] == dAtA[i - size.value..i] + dAtA[i..hi];
    j := PutHeader(dAtA, lo, i - size.value, hi, tag, size.value, num, s, tail);
  }

  lemma OptDelimBytes(num: nat, o: Option<bytes>, rest: seq<Rec>)
    ensures o.None? ==> OptDelim(num, o) + rest == rest
    ensures o.Some? ==> EncRecs(OptDelim(num, o) + rest) == EncRec(DelimRec(num, o.value)) + EncRecs(rest)
  {
    if o.Some? {
      assert (OptDelim(num, o) + rest)[1..] == rest;
    } else {
      assert OptDelim(num, o) + rest == rest;
    }
  }

  /** The same for a varint field. */
  method PutOptVarint(dAtA: array<byte>, lo: nat, i: int, hi: nat, tag: bytes, o: Option<nat>,
                      ghost num: nat, ghost rest: seq<Rec>, ghost u: bytes)
    returns (j: int)
    requires Written(dAtA, lo, i, hi, EncRecs(rest) + u)
    requires tag == EncVarint(8 * num) && (o.Some? ==> o.value < TWO_64)
    modifies dAtA
    ensures Written(dAtA, lo, j, hi, EncRecs(OptVarint(num, o) + rest) + u) && j <= i
    ensures Untouched(dAtA, lo, j, hi)
  {
    hide EncVarint, EncRec, Written;
    j := i;
    OptVarintBytes(num, o, rest);
    if o.Some? {
      ghost var tail := EncRecs(rest) + u;
      j := PutVarint(dAtA, lo, i, hi, o.value, tail);
      j := PutBytes(dAtA, lo, j, hi, tag, EncVarint(o.value) + tail);
      Regroup(tag, EncVarint(o.value), EncRecs(rest), u);
    }
  }

  lemma OptVarintBytes(num: nat, o: Option<nat>, rest: seq<Rec>)
    ensures o.None? ==> OptVarint(num, o) + rest == rest
    ensures o.Some? ==> EncRecs(OptVarint(num, o) + rest) == EncVarint(8 * num) + EncVarint(o.value) + EncRecs(rest)
  {
    if o.Some? {
      assert (OptVarint(num, o) + rest)[1..] == rest;
    } else {
      assert OptVarint(num, o) + rest == rest;
    }
  }

  /** The loop of a repeated field, from the last item to the first. */
  method PutRepeated(dAtA: array<byte>, lo: nat, i: int, hi: nat, tag: bytes, items: seq<bytes>,
                     ghost num: nat, ghost u: bytes)
    returns (j: int)
    requires Written(dAtA, lo, i, hi, u) && tag == EncVarint(8 * num + 2)
    modifies dAtA
    ensures Written(dAtA, lo, j, hi, EncRecs(Repeated(num, items)) + u) && j <= i
    ensures Untouched(dAtA, lo, j, hi)
  {
    hide EncVarint, EncRec, EncRecs, Repeated, RepeatedFrom, Written;
    RepeatedEnds(num, items, u);
    j := i;
    var iNdEx: nat := |items|;
    while iNdEx > 0
      invariant iNdEx <= |items| && j <= i
      invariant Written(dAtA, lo, j, hi, RepeatedFrom(num, items, iNdEx, u))
      invariant Untouched(dAtA, lo, j, hi)
    {
      iNdEx := iNdEx - 1;
      RepeatedStep(num, items, iNdEx, u);
      j := PutDelim(dAtA, lo, j, hi, tag, items[iNdEx], num, RepeatedFrom(num, items, iNdEx + 1, u));
    }
  }

  /** The fields of items[k..], in front of u. */
  function RepeatedFrom(num: int, items: seq<bytes>, k: nat, u: bytes): bytes
    requires k <= |items|
  {
    EncRecs(Repeated(num, items[k..])) + u
  }

  lemma RepeatedEnds(num: int, items: seq<bytes>, u: bytes)
    ensures RepeatedFrom(num, items, |items|, u) == u
    ensures RepeatedFrom(num, items, 0, u) == EncRecs(Repeated(num, items)) + u
  {
    assert items[|items|..] == [] && items[0..] == items;
    assert EncRecs(Repeated(num, [])) == [];
  }

  lemma RepeatedStep(num: nat, items: seq<bytes>, k: nat, u: bytes)
    requires k < |items|
    ensures RepeatedFrom(num, items, k, u) == EncRec(DelimRec(num, items[k])) + RepeatedFrom(num, items, k + 1, u)
  {
    hide EncRec, EncRecs, Repeated;
    RepeatedFront(num, items, k);
  }

  /** The sizes of two groups of records add up. */
  lemma {:induction false} SuffixSize(a: seq<Rec>, rest: seq<Rec>)
    ensures |EncRecs(a + rest)| == |EncRecs(a)| + |EncRecs(rest)|
  {
    EncRecsConcat(a, rest);
  }

  /** Repeated fields split anywhere. */
  lemma {:induction false} RepeatedSplit(num: int, items: seq<bytes>, k: nat)
    requires k <= |items|
    ensures Repeated(num, items) == Repeated(num, items[..k]) + Repeated(num, items[k..])
  {
    if k == 0 {
      assert items[..0] == [] && items[0..] == items;
      assert Repeated(num, items[..0]) == [];
    } else {
      var front := items[..k];
      assert items[1..][..k - 1] == front[1..] && items[1..][k - 1..] == items[k..];
      RepeatedSplit(num, items[1..], k - 1);
      assert Repeated(num, front) == [DelimRec(num, items[0])] + Repeated(num, front[1..]);
    }
  }

  lemma RepeatedFront(num: nat, items: seq<bytes>, k: nat)
    requires k < |items|
    ensures EncRecs(Repeated(num, items[k..]))
         == EncRec(DelimRec(num, items[k])) + EncRecs(Repeated(num, items[k + 1..]))
    ensures |EncRecs(Repeated(num, items))|
         == |EncRecs(Repeated(num, items[..k]))| + |EncRecs(Repeated(num, items[k..]))|
  {
    assert items[k..][1..] == items[k + 1..];
    assert Repeated(num, items[k..]) == [DelimRec(num, items[k])] + Repeated(num, items[k + 1..]);
    RepeatedSplit(num, items, k);
    EncRecsConcat(Repeated(num, items[..k]), Repeated(num, items[k..]));
  }

  /** One more item adds its field to the size. */
  lemma RepeatedBack(num: nat, items: seq<bytes>, k: nat)
    requires 0 < num < 2048 && k < |items|
    ensures |EncRecs(Repeated(num, items[..k + 1]))|
         == |EncRecs(Repeated(num, items[..k]))| + DelimSize(if num < 16 then 1 else 2, Some(items[k]))
  {
    hide EncRec, DelimSize;
    var front := items[..k + 1];
    assert front[..k] == items[..k] && front[k + 1..] == [];
    RepeatedFront(num, front, k);
    assert EncRecs(Repeated(num, front[k + 1..])) == [];
    DelimSizeExact(num, Some(items[k]), []);
    OptDelimBytes(num, Some(items[k]), []);
  }

  lemma NoRecs()
    ensures EncRecs([]) == []
  {
  }

  // ---------------------------------------------------------------------------------------
  // Adding up sizes
  // ---------------------------------------------------------------------------------------

  /** Size of an optional length-delimited field with a tag of tagLen bytes. */
  function DelimSize(tagLen: nat, o: Option<bytes>): nat {
    if o.None? then 0 else var l := |o.value|; tagLen + l + SizeOfVarint(l)
  }

  function VarintSize(tagLen: nat, o: Option<nat>): nat {
    if o.None? then 0 else tagLen + SizeOfVarint(o.value)
  }

  /** Tags of field numbers below 16 take one byte, below 2048 two. */
  lemma TagLength(num: nat, wireType: nat)
    requires 0 < num < 2048 && wireType < 8
    ensures |EncVarint(8 * num + wireType)| == if num < 16 then 1 else 2
  {
    var tag := 8 * num + wireType;
    if num >= 16 { assert tag / 128 < 128; }
  }

  lemma DelimSizeExact(num: nat, o: Option<bytes>, rest: seq<Rec>)
    requires 0 < num < 2048
    ensures |EncRecs(OptDelim(num, o) + rest)| == DelimSize(if num < 16 then 1 else 2, o) + |EncRecs(rest)|
  {
    hide EncVarint, SizeOfVarint, EncRec;
    OptDelimBytes(num, o, rest);
    TagLength(num, 2);
    if o.Some? {
      DelimParts(num, o.value);
      SizeOfVarintExact(|o.value|);
    }
  }

  lemma VarintSizeExact(num: nat, o: Option<nat>, rest: seq<Rec>)
    requires 0 < num < 2048
    ensures |EncRecs(OptVarint(num, o) + rest)| == VarintSize(if num < 16 then 1 else 2, o) + |EncRecs(rest)|
  {
    hide EncVarint, SizeOfVarint, EncRec;
    OptVarintBytes(num, o, rest);
    TagLength(num, 0);
    if o.Some? { SizeOfVarintExact(o.value); }
  }

  // ---------------------------------------------------------------------------------------
  // Reading forwards
  // ---------------------------------------------------------------------------------------

  /** A tag at iNdEx, with the checks every decoder makes on it. */
  method DecodeTag(dAtA: bytes, iNdEx: nat) returns (err: Option<Error>, tag: Tag, next: nat)
    requires iNdEx <= |dAtA|
    ensures match ReadTag(dAtA[iNdEx..])
            case Ok(t, n) => err == None && tag == t && iNdEx < next == iNdEx + n <= |dAtA|
            case Bad(e) => err == Some(e)
  {
    hide ReadVarint;
    ReadVarintBounds(dAtA[iNdEx..], 0);
    var wire;
    tag := Tag(1, 0);
    err, wire, next := DecodeVarint(dAtA, iNdEx, Bits64);
    if err == None {
      var fieldNum, wireType := ToI32(wire / 8), wire % 8;
      if wireType == 4 {
        return Some(EndGroup), tag, next;
      }
      if fieldNum <= 0 {
        return Some(IllegalTag), tag, next;
      }
      tag := Tag(fieldNum, wireType);
    }
  }

  /** A length and the bytes it announces. The length is computed in `width` bits and turned
      into an `int`, and the index arithmetic wraps around. */
  method DecodeDelim(dAtA: bytes, iNdEx: nat, width: Width) returns (err: Option<Error>, data: bytes, next: nat)
    requires iNdEx <= |dAtA| <= MAX_INT && width in {Bits64, INT_WIDTH}
    ensures |data| <= |dAtA|
    ensures match ReadDelim(dAtA[iNdEx..])
            case Ok(d, n) => err == None && data == d && iNdEx < next == iNdEx + n <= |dAtA|
            case Bad(e) => err == Some(e)
  {
    hide ReadVarint, Truncate;
    ReadVarintBounds(dAtA[iNdEx..], 0);
    var v;
    data := [];
    err, v, next := DecodeVarint(dAtA, iNdEx, width);
    if err == None {
      ghost var raw := ReadVarint(dAtA[iNdEx..], 0).value;
      ToIntOfU64(raw);
      var len := ToInt(v);
      if len < 0 {
        return Some(InvalidLength), [], next;
      }
      var postIndex := ToInt(next + len);
      WrapAround(next, len);
      if postIndex < 0 {
        return Some(PastEnd), [], next;
      }
      if postIndex > |dAtA| {
        return Some(PastEnd), [], next;
      }
      data := dAtA[next..postIndex];
      assert data == dAtA[iNdEx..][next - iNdEx..next - iNdEx + len];
      next := postIndex;
    }
  }

  /** Two non-negative `int`s add up to their sum or wrap around to something negative. */
  lemma WrapAround(x: nat, y: nat)
    requires x <= MAX_INT && y <= MAX_INT
    ensures if x + y <= MAX_INT then ToInt(x + y) == x + y else ToInt(x + y) < 0
  {
  }

  /** An unknown field, from its tag on. */
  method DecodeSkip(dAtA: bytes, iNdEx: nat) returns (err: Option<Error>, data: bytes, next: nat)
    requires iNdEx <= |dAtA| <= MAX_INT
    ensures match ReadUnknown(dAtA[iNdEx..])
            case Ok(d, n) => err == None && data == d && iNdEx < next == iNdEx + n <= |dAtA|
            case Bad(e) => err == Some(e)
  {
    var skippy := SKIP(dAtA[iNdEx..]);
    if skippy.None? {
      return Some(SkipFailed), [], iNdEx;
    }
    SkipLocal(dAtA[iNdEx..]);
    WrapAround(iNdEx, skippy.value);
    next := iNdEx;
    if ToInt(iNdEx + skippy.value) < 0 {
      return Some(PastEnd), [], next;
    }
    if ToInt(iNdEx + skippy.value) > |dAtA| {
      return Some(PastEnd), [], next;
    }
    err, data, next := None, dAtA[iNdEx..iNdEx + skippy.value], iNdEx + skippy.value;
    assert data == dAtA[iNdEx..][..skippy.value];
  }
}
