/**
 Base-128 varints, as the "Base 128 Varints" section of the Protocol Buffers Encoding
 specification defines them: the encoding itself, the writer and the size function of the
 vtprotobuf runtime, and the reading loop that the generated decoders inline everywhere.
 */
module Varint {
  import opened Machine

  datatype Error =
    | IntOverflow       // a varint of more than ten bytes
    | UnexpectedEOF     // the input ends inside a varint
    | InvalidLength     // a negative length
    | PastEnd           // a length that leads past the end of the input
    | EndGroup          // wire type 4 outside a group
    | IllegalTag        // a field number below 1
    | WrongWireType     // a known field with another wire type
    | SkipFailed        // the runtime cannot skip an unknown field

  datatype Read<+T> = Ok(value: T, n: nat) | Bad(err: Error)

  function EncVarint(v: nat): (b: bytes)
    ensures |b| > 0
  {
    if v < 128 then [v] else [v % 128 + 128] + EncVarint(v / 128)
  }

  /** Reads a varint at the front of b when k of its bytes have been read already. The value
      is the unbounded sum of the groups; the readers keep its low bits only. */
  function ReadVarint(b: bytes, k: nat): (r: Read<nat>)
    decreases |b|
  {
    if 7 * k >= 64 then Bad(IntOverflow)
    else if b == [] then Bad(UnexpectedEOF)
    else if b[0] < 128 then Ok(b[0], 1)
    else
      match ReadVarint(b[1..], k + 1)
      case Ok(v, n) => Ok(b[0] - 128 + 128 * v, n + 1)
      case Bad(e) => Bad(e)
  }

  function Pow128(k: nat): (p: nat)
    ensures p > 0
  {
    if k == 0 then 1 else 128 * Pow128(k - 1)
  }

  /** A read takes between one and ten bytes, all of them inside the input. */
  lemma {:induction false} ReadVarintBounds(b: bytes, k: nat)
    ensures ReadVarint(b, k).Ok? ==> 1 <= ReadVarint(b, k).n <= |b| && ReadVarint(b, k).n + k <= 10
    decreases |b|
  {
    if 7 * k < 64 && b != [] && b[0] >= 128 {
      ReadVarintBounds(b[1..], k + 1);
    }
  }

  /** The outcome of a successful read depends on the bytes it takes and on nothing else. */
  lemma {:induction false} ReadVarintLocal(b: bytes, k: nat, c: bytes)
    requires ReadVarint(b, k).Ok?
    requires ReadVarint(b, k).n <= |b| && b[..ReadVarint(b, k).n] <= c
    ensures ReadVarint(c, k) == ReadVarint(b, k)
    decreases |b|
  {
    ReadVarintBounds(b, k);
    var n := ReadVarint(b, k).n;
    assert c[0] == b[..n][0] == b[0];
    if b[0] >= 128 {
      ReadVarintBounds(b[1..], k + 1);
      assert b[1..][..n - 1] == b[..n][1..];
      assert c[..n] == b[..n];
      assert c[1..][..n - 1] == c[..n][1..];
      ReadVarintLocal(b[1..], k + 1, c[1..]);
    }
  }

  /** Reading inverts writing and leaves the rest of the input alone. */
  lemma {:induction false} ReadEncVarint(v: nat, k: nat, rest: bytes)
    requires k < 10 && v < Pow128(10 - k)
    ensures ReadVarint(EncVarint(v) + rest, k) == Ok(v, |EncVarint(v)|)
    decreases v
  {
    var b := EncVarint(v) + rest;
    if v >= 128 {
      assert k < 9 by { assert Pow128(1) == 128 * Pow128(0); }
      ReadEncVarint(v / 128, k + 1, rest);
      assert b[1..] == EncVarint(v / 128) + rest;
    }
  }

  /** Every uint64 is read back from its encoding, whatever follows. */
  lemma ReadEncU64(v: u64, rest: bytes)
    ensures ReadVarint(EncVarint(v) + rest, 0) == Ok(v, |EncVarint(v)|)
    ensures |EncVarint(v)| <= 10
  {
    assert TWO_64 < Pow128(10);
    ReadEncVarint(v, 0, rest);
    ReadVarintBounds(EncVarint(v) + rest, 0);
  }

  // ---------------------------------------------------------------------------------------
  // The size function
  // ---------------------------------------------------------------------------------------

  /** Number of bits of x, as `bits.Len64`. */
  function Len64(x: nat): nat {
    if x == 0 then 0 else 1 + Len64(x / 2)
  }

  /** `SizeOfVarint`: seven bits a byte, and one byte for zero (the `x | 1`). */
  function SizeOfVarint(x: nat): nat {
    (Len64(if x % 2 == 0 then x + 1 else x) + 6) / 7
  }

  lemma {:induction false} LenOfShifted(x: nat)
    requires x >= 128
    ensures Len64(x) == 7 + Len64(x / 128)
  {
    var x1 := x / 2; var x2 := x1 / 2; var x3 := x2 / 2;
    var x4 := x3 / 2; var x5 := x4 / 2; var x6 := x5 / 2;
    assert x6 > 0 && x6 / 2 == x / 128;
    assert Len64(x) == 1 + Len64(x1) && Len64(x1) == 1 + Len64(x2) && Len64(x2) == 1 + Len64(x3);
    assert Len64(x3) == 1 + Len64(x4) && Len64(x4) == 1 + Len64(x5) && Len64(x5) == 1 + Len64(x6);
  }

  lemma {:induction false} LenOfSmall(x: nat)
    requires 0 < x < 128
    ensures 1 <= Len64(x) <= 7
  {
    var x1 := x / 2; var x2 := x1 / 2; var x3 := x2 / 2;
    var x4 := x3 / 2; var x5 := x4 / 2; var x6 := x5 / 2;
    assert x6 <= 1 && Len64(x6) <= 1;
    assert Len64(x) == 1 + Len64(x1) && Len64(x1) <= 1 + Len64(x2) && Len64(x2) <= 1 + Len64(x3);
    assert Len64(x3) <= 1 + Len64(x4) && Len64(x4) <= 1 + Len64(x5) && Len64(x5) <= 1 + Len64(x6);
  }

  lemma {:induction false} LenIgnoresLastBit(x: nat)
    requires x % 2 == 0 && x > 0
    ensures Len64(x + 1) == Len64(x)
  {
  }

  /** The size the size function announces is the size the writer produces. */
  lemma {:induction false} SizeOfVarintExact(x: nat)
    ensures SizeOfVarint(x) == |EncVarint(x)|
    decreases x
  {
    if x > 0 && x % 2 == 0 {
      LenIgnoresLastBit(x);
    }
    if x < 128 {
      if x > 0 { LenOfSmall(x); }
    } else {
      LenOfShifted(x);
      var y := x / 128;
      if y % 2 == 0 { LenIgnoresLastBit(y); }
      SizeOfVarintExact(y);
    }
  }

  // ---------------------------------------------------------------------------------------
  // The runtime's writer and the inlined reading loop
  // ---------------------------------------------------------------------------------------

  /** Writes v so that it ends just below `offset`, and returns where it starts. */
  method EncodeVarint(dAtA: array<byte>, offset: nat, v: u64) returns (base: nat)
    requires |EncVarint(v)| <= offset <= dAtA.Length
    modifies dAtA
    ensures base == offset - |EncVarint(v)|
    ensures dAtA[base..offset] == EncVarint(v)
    ensures dAtA[..base] == old(dAtA[..base]) && dAtA[offset..] == old(dAtA[offset..])
  {
    SizeOfVarintExact(v);
    base := offset - SizeOfVarint(v);
    var i, w := base, v;
    while w >= 128
      invariant base <= i && i + |EncVarint(w)| == offset
      invariant dAtA[base..i] + EncVarint(w) == EncVarint(v)
      invariant dAtA[..base] == old(dAtA[..base]) && dAtA[offset..] == old(dAtA[offset..])
    {
      ghost var done := dAtA[base..i];
      dAtA[i] := w % 128 + 128;
      assert dAtA[base..i + 1] == done + [w % 128 + 128];
      w := w / 128;
      i := i + 1;
    }
    dAtA[i] := w;
    assert dAtA[base..offset] == dAtA[base..i] + [w];
  }

  /** `d << shift`, before truncation. */
  function ShiftLeft(d: nat, shift: nat): (r: nat)
    ensures shift == 0 ==> r == d
  {
    if shift == 0 then d else 2 * ShiftLeft(d, shift - 1)
  }

  lemma {:induction false} ShiftLeftSum(c: nat, d: nat, shift: nat)
    ensures ShiftLeft(c + d, shift) == ShiftLeft(c, shift) + ShiftLeft(d, shift)
    decreases shift
  {
    if shift > 0 { ShiftLeftSum(c, d, shift - 1); }
  }

  lemma {:induction false} ShiftLeftTwice(d: nat, shift: nat)
    ensures ShiftLeft(2 * d, shift) == ShiftLeft(d, shift + 1)
    decreases shift
  {
    if shift > 0 { ShiftLeftTwice(d, shift - 1); }
  }

  lemma ShiftLeftGroup(d: nat, shift: nat)
    ensures ShiftLeft(128 * d, shift) == ShiftLeft(d, shift + 7)
  {
    hide ShiftLeft;
    ShiftLeftTwice(64 * d, shift);
    ShiftLeftTwice(32 * d, shift + 1);
    ShiftLeftTwice(16 * d, shift + 2);
    ShiftLeftTwice(8 * d, shift + 3);
    ShiftLeftTwice(4 * d, shift + 4);
    ShiftLeftTwice(2 * d, shift + 5);
    ShiftLeftTwice(d, shift + 6);
  }

  lemma {:induction false} ShiftLeftMonotone(c: nat, d: nat, shift: nat)
    requires c <= d
    ensures ShiftLeft(c, shift) <= ShiftLeft(d, shift)
    decreases shift
  {
    if shift > 0 { ShiftLeftMonotone(c, d, shift - 1); }
  }

  /** What a whole read yields, given the rest of it and the bits and bytes read before. */
  function Resume(r: Read<nat>, low: nat, shift: nat, before: nat): Read<nat> {
    match r
    case Ok(v, n) => Ok(low + ShiftLeft(v, shift), n + before)
    case Bad(e) => Bad(e)
  }

  /** One more group with its continuation bit set: what the rest of the loop has to read. */
  lemma ResumeStep(b: bytes, k: nat, low: nat, before: nat)
    requires 7 * k < 64 && b != [] && b[0] >= 128 && low < ShiftLeft(1, 7 * k)
    ensures low + ShiftLeft(b[0] % 128, 7 * k) < ShiftLeft(1, 7 * k + 7)
    ensures Resume(ReadVarint(b, k), low, 7 * k, before)
         == Resume(ReadVarint(b[1..], k + 1), low + ShiftLeft(b[0] % 128, 7 * k), 7 * k + 7, before + 1)
  {
    hide ShiftLeft;
    var d, shift := b[0] - 128, 7 * k;
    assert d == b[0] % 128;
    ShiftLeftSum(1, d, shift);
    ShiftLeftMonotone(1 + d, 128, shift);
    ShiftLeftGroup(1, shift);
    match ReadVarint(b[1..], k + 1)
    case Bad(e) =>
    case Ok(v, n) =>
      ShiftLeftSum(d, 128 * v, shift);
      ShiftLeftGroup(v, shift);
  }

  lemma ReadVarintFront(b: bytes, k: nat)
    ensures 7 * k >= 64 ==> ReadVarint(b, k) == Bad(IntOverflow)
    ensures 7 * k < 64 && b == [] ==> ReadVarint(b, k) == Bad(UnexpectedEOF)
    ensures 7 * k < 64 && b != [] && b[0] < 128 ==> ReadVarint(b, k) == Ok(b[0], 1)
  {
  }

  /**
   The loop `for shift := 0; ; shift += 7 { ... v |= T(b & 0x7F) << shift ... }` over a type of
   the given width. The bits already in v lie below position `shift`, so the bitwise
   or is an addition.
   */
  method DecodeVarint(dAtA: bytes, iNdEx: nat, width: Width) returns (err: Option<Error>, v: nat, next: nat)
    requires iNdEx <= |dAtA|
    ensures match ReadVarint(dAtA[iNdEx..], 0)
            case Ok(raw, n) => err == None && next == iNdEx + n <= |dAtA| && v == Truncate(raw, width)
            case Bad(e) => err == Some(e)
  {
    hide Truncate, ShiftLeft, ReadVarint;
    err, v, next := None, 0, iNdEx;
    var shift: nat := 0;
    ghost var k: nat, low: nat := 0, 0;
    ghost var whole := ReadVarint(dAtA[iNdEx..], 0);
    assert Resume(whole, 0, 0, 0) == whole;
    while true
      invariant iNdEx <= next <= |dAtA| && shift == 7 * k
      invariant v == Truncate(low, width) && low < ShiftLeft(1, shift)
      invariant whole == Resume(ReadVarint(dAtA[next..], k), low, shift, next - iNdEx)
      decreases |dAtA| - next
    {
      ghost var rest := dAtA[next..];
      ReadVarintFront(rest, k);
      if shift >= 64 {
        return Some(IntOverflow), 0, next;
      }
      if next >= |dAtA| {
        return Some(UnexpectedEOF), 0, next;
      }
      var b := dAtA[next];
      assert b == rest[0] && rest[1..] == dAtA[next + 1..];
      var d := b % 128;
      v := Truncate(v + ShiftLeft(d, shift), width);
      assert v == Truncate(low + ShiftLeft(d, shift), width) by {
        TruncateSum(low, ShiftLeft(d, shift), width);
      }
      next := next + 1;
      if b < 128 {
        assert whole == Ok(low + ShiftLeft(d, shift), next - iNdEx);
        return;
      }
      ResumeStep(rest, k, low, next - 1 - iNdEx);
      low := low + ShiftLeft(d, shift);
      k, shift := k + 1, shift + 7;
    }
  }
}
