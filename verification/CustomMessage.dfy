/**
 The custom-message context of sdk/serde.go. Its length check adds ten to a 32-bit length in
 32-bit arithmetic, so a length within ten of 2^32 passes the check and then makes the slice
 expression panic.
 */
module CustomMessage {
  import opened Machine
  import opened BigEndian
  import opened Context

  datatype CustomMessageCtx = CustomMessageCtx(base: ParseCtx, hookPoint: u16, typeCode: u32, payload: bytes)

  datatype Decoded = Accepted(ctx: CustomMessageCtx) | Rejected | Panicked

  /** The documented layout. */
  function EncMessage(c: CustomMessageCtx): bytes {
    EncBE(c.hookPoint, 2) + (EncBE(c.typeCode, 4) + (EncBE(|c.payload|, 4) + c.payload))
  }

  /** b starts with the encoding of c, and c is short enough for the length check. */
  ghost predicate HoldsMessage(b: bytes, c: CustomMessageCtx) {
    |c.payload| + 10 < TWO_32 && |c.payload| + 10 <= |b| % TWO_32 && EncMessage(c) <= b
  }

  /** The length in b passes the check only because ten more wraps around. */
  predicate Wraps(b: bytes) {
    |b| >= 10 && ReadBE(b[6..10]) + 10 >= TWO_32 && (ReadBE(b[6..10]) + 10) % TWO_32 <= |b| % TWO_32
  }

  ghost function CustomMessageOf(paramBuf: bytes, b: bytes): (r: Decoded)
    ensures r.Accepted? ==> CtxOf(paramBuf) == Some(r.ctx.base) && HoldsMessage(b, r.ctx)
    ensures r.Panicked? <==> CtxOf(paramBuf).Some? && Wraps(b)
    ensures r.Rejected? ==> forall c :: HoldsMessage(b, c) ==> CtxOf(paramBuf) != Some(c.base)
  {
    if CtxOf(paramBuf).None? then Rejected
    else if Wraps(b) then Panicked
    else if exists c: CustomMessageCtx :: CtxOf(paramBuf) == Some(c.base) && HoldsMessage(b, c) then
      var c: CustomMessageCtx :| CtxOf(paramBuf) == Some(c.base) && HoldsMessage(b, c); Accepted(c)
    else Rejected
  }

  lemma MessageByPosition(b: bytes, c: CustomMessageCtx)
    ensures HoldsMessage(b, c) <==>
            && |c.payload| + 10 < TWO_32 && |c.payload| + 10 <= |b| % TWO_32 && |b| >= 10
            && ReadBE(b[..2]) == c.hookPoint && ReadBE(b[2..6]) == c.typeCode && ReadBE(b[6..10]) == |c.payload|
            && b[10..10 + |c.payload|] == c.payload
  {
    hide EncBE, ReadBE;
    var n := |c.payload|;
    if n + 10 < TWO_32 && n + 10 <= |b| % TWO_32 {
      var e2 := EncBE(n, 4) + c.payload;
      var e1 := EncBE(c.typeCode, 4) + e2;
      Widths();
      assert b[0..] == b && b[0..2] == b[..2] && b[10..10 + n] == b[10..][..n];
      NumberPiece(b, 0, c.hookPoint, 2, e1);
      NumberPiece(b, 2, c.typeCode, 4, e2);
      NumberPiece(b, 6, n, 4, c.payload);
    }
  }

  lemma MessageUnique(b: bytes, c: CustomMessageCtx, d: CustomMessageCtx)
    requires HoldsMessage(b, c) && HoldsMessage(b, d) && c.base == d.base
    ensures c == d
  {
    hide HoldsMessage, ReadBE;
    MessageByPosition(b, c);
    MessageByPosition(b, d);
  }

  /** Whatever follows the encoding of a message, the buffer holds that message. */
  lemma MessageRoundTrip(paramBuf: bytes, c: CustomMessageCtx, rest: bytes)
    requires CtxOf(paramBuf) == Some(c.base) && |EncMessage(c) + rest| < TWO_32
    ensures CustomMessageOf(paramBuf, EncMessage(c) + rest) == Accepted(c)
  {
    hide HoldsMessage, EncMessage, ReadBE;
    var b := EncMessage(c) + rest;
    HeldByItself(c, rest);
    HeldIsAccepted(paramBuf, b, c);
  }

  /** The layout byte by byte: hook point, type code and length, the highest byte first. */
  lemma MessageByByte(paramBuf: bytes, hook: bytes, code: bytes, length: bytes, payload: bytes, rest: bytes)
    requires CtxOf(paramBuf).Some? && |hook| == 2 && |code| == |length| == 4
    requires 0x100_0000 * (length[0] as int) + 0x1_0000 * (length[1] as int) + 0x100 * (length[2] as int) + length[3]
             == |payload|
    requires 10 + |payload| + |rest| < 0x1_0000_0000
    ensures CustomMessageOf(paramBuf, hook + code + length + payload + rest)
         == Accepted(CustomMessageCtx(
              CtxOf(paramBuf).value, 256 * (hook[0] as int) + hook[1],
              0x100_0000 * (code[0] as int) + 0x1_0000 * (code[1] as int) + 0x100 * (code[2] as int) + code[3],
              payload))
  {
    hide HoldsMessage, ReadBE, CustomMessageOf;
    var b := hook + code + length + payload + rest;
    var c := CustomMessageCtx(
      CtxOf(paramBuf).value, 256 * (hook[0] as int) + hook[1],
      0x100_0000 * (code[0] as int) + 0x1_0000 * (code[1] as int) + 0x100 * (code[2] as int) + code[3], payload);
    TwoBytes(hook[0], hook[1]);
    FourBytes(code[0], code[1], code[2], code[3]);
    FourBytes(length[0], length[1], length[2], length[3]);
    assert hook == [hook[0], hook[1]] && code == [code[0], code[1], code[2], code[3]];
    assert length == [length[0], length[1], length[2], length[3]];
    assert b[..2] == hook && b[2..6] == code && b[6..10] == length && b[10..10 + |payload|] == payload;
    MessageByPosition(b, c);
    HeldIsAccepted(paramBuf, b, c);
  }

  lemma HeldIsAccepted(paramBuf: bytes, b: bytes, c: CustomMessageCtx)
    requires CtxOf(paramBuf) == Some(c.base) && HoldsMessage(b, c)
    ensures CustomMessageOf(paramBuf, b) == Accepted(c)
  {
    hide HoldsMessage, ReadBE;
    MessageByPosition(b, c);
    var r := CustomMessageOf(paramBuf, b);
    if r.Accepted? { MessageUnique(b, c, r.ctx); }
  }

  lemma HeldByItself(c: CustomMessageCtx, rest: bytes)
    requires |EncMessage(c) + rest| < TWO_32
    ensures HoldsMessage(EncMessage(c) + rest, c)
  {
    hide EncBE;
  }

  /** On a buffer of less than 4 GiB the decoder panics exactly when the base context is
      valid and the length field is within ten of 2^32. */
  lemma PanicCondition(paramBuf: bytes, b: bytes)
    requires |b| < TWO_32
    ensures CustomMessageOf(paramBuf, b) == Panicked <==>
            CtxOf(paramBuf).Some? && |b| >= 10 && ReadBE(b[6..10]) >= TWO_32 - 10
  {
    hide ReadBE, HoldsMessage;
    if |b| >= 10 {
      ReadBEBound(b[6..10]);
      Widths();
    }
  }

  /** Such a buffer: a length field of 0xFFFFFFF6 in a buffer of ten bytes. */
  lemma PanicExample(c: ParseCtx)
    requires ValidCtx(c)
    ensures CustomMessageOf(EncCtx(c), EncBE(0, 2) + EncBE(104, 4) + EncBE(0xFFFF_FFF6, 4)) == Panicked
  {
    hide EncCtx, EncBE, ReadBE, HoldsMessage;
    CtxRoundTrip(c, []);
    assert EncCtx(c) + [] == EncCtx(c);
    var b := EncBE(0, 2) + EncBE(104, 4) + EncBE(0xFFFF_FFF6, 4);
    assert b[6..10] == EncBE(0xFFFF_FFF6, 4);
    Widths();
    ReadEncBE(0xFFFF_FFF6, 4);
  }

  method DeserializeCustomMessageCtx(paramBuf: bytes, buf: bytes) returns (r: Decoded)
    ensures r == CustomMessageOf(paramBuf, buf)
  {
    hide ReadBE, HoldsMessage;
    var msgBufLen := |buf|;
    ghost var held := CustomMessageOf(paramBuf, buf);
    if held.Accepted? {
      MessageByPosition(buf, held.ctx);
    }
    if msgBufLen < 10 {
      return Rejected;
    }
    var base := DeserializeParseCtx(paramBuf);
    if base.None? {
      return Rejected;
    }
    var hookPoint, typeCode, len := ReadU16(buf[..2]), ReadU32(buf[2..6]), ReadU32(buf[6..10]);
    var end := (len + 10) % TWO_32;
    if end > msgBufLen % TWO_32 {
      return Rejected;
    }
    if end < 10 || end > msgBufLen {
      return Panicked;
    }
    var c := CustomMessageCtx(base.value, hookPoint, typeCode, buf[10..end]);
    MessageByPosition(buf, c);
    MessageUnique(buf, c, held.ctx);
    return Accepted(c);
  }
}
