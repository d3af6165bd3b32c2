/**
 The contexts the host hands to a plugin, and the decoders of sdk/serde.go that read them.
 A decoder is specified by the layout it documents: it accepts exactly the buffers that start
 with the encoding of some valid context, and returns that context.
 */
module Context {
  import opened Machine
  import opened BigEndian

  datatype ParseCtx = ParseCtx(
    srcIp: bytes, dstIp: bytes, srcPort: u16, dstPort: u16, l4: u8, l7: u8, ebpfType: u8, time: u64,
    direction: u8, procName: bytes, flowId: u64, bufSize: u16)

  const UDP: u8 := 17
  const TCP: u8 := 6
  const DIRECTION_REQUEST: u8 := 0
  const DIRECTION_RESPONSE: u8 := 1

  predicate KnownEbpfType(e: u8) {
    e in {0, 1, 2, 5, 8, 255}
  }

  predicate ValidCtx(c: ParseCtx) {
    && (|c.srcIp| == 4 || |c.srcIp| == 16) && |c.dstIp| == |c.srcIp|
    && (c.l4 == UDP || c.l4 == TCP) && KnownEbpfType(c.ebpfType)
    && (c.direction == DIRECTION_REQUEST || c.direction == DIRECTION_RESPONSE)
    && |c.procName| <= 255
  }

  /** The documented layout: the addresses and ports, and what follows them. */
  function EncCtx(c: ParseCtx): (b: bytes)
    requires ValidCtx(c)
    ensures |b| == 28 + 2 * |c.srcIp| + |c.procName|
  {
    [if |c.srcIp| == 4 then 4 else 6] + (c.srcIp + (c.dstIp + (EncBE(c.srcPort, 2) + (EncBE(c.dstPort, 2) +
    EncTail(c)))))
  }

  function EncTail(c: ParseCtx): (b: bytes)
    requires ValidCtx(c)
    ensures |b| == 23 + |c.procName|
  {
    [c.l4, c.l7, c.ebpfType] + (EncBE(c.time, 8) + EncEnd(c))
  }

  function EncEnd(c: ParseCtx): (b: bytes)
    requires ValidCtx(c)
    ensures |b| == 12 + |c.procName|
  {
    [c.direction, |c.procName|] + (c.procName + (EncBE(c.flowId, 8) + (EncBE(c.bufSize, 2) + [])))
  }

  ghost predicate Holds(b: bytes, c: ParseCtx) {
    ValidCtx(c) && EncCtx(c) <= b
  }

  /** A piece of a layout: it lies at offset o, and the next one behind it. */
  lemma Piece(b: bytes, o: nat, x: bytes, y: bytes)
    requires o + |x| <= |b|
    ensures x + y <= b[o..] <==> b[o..o + |x|] == x && y <= b[o + |x|..]
  {
    if x + y <= b[o..] {
      assert b[o..o + |x|] == b[o..][..|x + y|][..|x|] == x;
      assert b[o + |x|..][..|y|] == b[o..][..|x + y|][|x|..] == y;
    }
    if b[o..o + |x|] == x && y <= b[o + |x|..] {
      assert b[o..] == b[o..o + |x|] + b[o + |x|..];
    }
  }

  lemma NumberPiece(b: bytes, o: nat, v: nat, n: nat, y: bytes)
    requires o + n <= |b| && v < Pow256(n)
    ensures EncBE(v, n) + y <= b[o..] <==> ReadBE(b[o..o + n]) == v && y <= b[o + n..]
  {
    hide EncBE, ReadBE;
    Piece(b, o, EncBE(v, n), y);
    BEField(v, b[o..o + n]);
  }

  /** The same layout read off by position, k being the number of bytes of an address. */
  ghost predicate At(b: bytes, c: ParseCtx, k: nat) {
    && |b| >= 5 + 2 * k && |c.srcIp| == |c.dstIp| == k
    && b[0] == (if k == 4 then 4 else 6)
    && b[1..1 + k] == c.srcIp && b[1 + k..1 + 2 * k] == c.dstIp
    && ReadBE(b[1 + 2 * k..3 + 2 * k]) == c.srcPort && ReadBE(b[3 + 2 * k..5 + 2 * k]) == c.dstPort
    && TailAt(b, c, 5 + 2 * k, |c.procName|)
  }

  ghost predicate TailAt(b: bytes, c: ParseCtx, p: nat, n: nat) {
    && |b| >= p + 23 + n && |c.procName| == n
    && b[p] == c.l4 && b[p + 1] == c.l7 && b[p + 2] == c.ebpfType
    && ReadBE(b[p + 3..p + 11]) == c.time && b[p + 11] == c.direction
    && b[p + 12] == n && b[p + 13..p + 13 + n] == c.procName
    && ReadBE(b[p + 13 + n..p + 21 + n]) == c.flowId && ReadBE(b[p + 21 + n..p + 23 + n]) == c.bufSize
  }

  lemma EndByPosition(b: bytes, c: ParseCtx, p: nat)
    requires ValidCtx(c) && p + 12 + |c.procName| <= |b|
    ensures EncEnd(c) <= b[p..] <==>
            var n := |c.procName|;
            && b[p] == c.direction && b[p + 1] == n && b[p + 2..p + 2 + n] == c.procName
            && ReadBE(b[p + 2 + n..p + 10 + n]) == c.flowId && ReadBE(b[p + 10 + n..p + 12 + n]) == c.bufSize
  {
    hide ReadBE, EncBE;
    var n := |c.procName|;
    var e6: bytes := EncBE(c.bufSize, 2) + [];
    var e5 := EncBE(c.flowId, 8) + e6;
    Widths();
    Piece(b, p, [c.direction, n], c.procName + e5);
    Piece(b, p + 2, c.procName, e5);
    NumberPiece(b, p + 2 + n, c.flowId, 8, e6);
    NumberPiece(b, p + 10 + n, c.bufSize, 2, []);
    assert b[p..p + 2] == [b[p], b[p + 1]];
  }

  lemma TailByPosition(b: bytes, c: ParseCtx, p: nat)
    requires ValidCtx(c) && p <= |b|
    ensures EncTail(c) <= b[p..] <==> TailAt(b, c, p, |c.procName|)
  {
    hide ReadBE, EncBE, EncEnd, ValidCtx;
    if |b| >= p + 23 + |c.procName| {
      Widths();
      Piece(b, p, [c.l4, c.l7, c.ebpfType], EncBE(c.time, 8) + EncEnd(c));
      NumberPiece(b, p + 3, c.time, 8, EncEnd(c));
      EndByPosition(b, c, p + 11);
      assert b[p..p + 3] == [b[p], b[p + 1], b[p + 2]];
    }
  }

  /** The layout is what the positions say: both directions, for every buffer. */
  lemma LayoutByPosition(b: bytes, c: ParseCtx)
    requires ValidCtx(c)
    ensures Holds(b, c) <==> At(b, c, |c.srcIp|)
  {
    hide ReadBE, EncBE;
    hide EncTail, TailAt;
    var k := |c.srcIp|;
    var e4 := EncBE(c.dstPort, 2) + EncTail(c);
    var e3 := EncBE(c.srcPort, 2) + e4;
    var e2 := c.dstIp + e3;
    var e1 := c.srcIp + e2;
    assert b[0..] == b;
    TailSize(b, c, k);
    if |b| >= 5 + 2 * k {
      Widths();
      Piece(b, 0, [if k == 4 then 4 else 6], e1);
      Piece(b, 1, c.srcIp, e2);
      Piece(b, 1 + k, c.dstIp, e3);
      NumberPiece(b, 1 + 2 * k, c.srcPort, 2, e4);
      NumberPiece(b, 3 + 2 * k, c.dstPort, 2, EncTail(c));
      TailByPosition(b, c, 5 + 2 * k);
    }
  }

  lemma TailSize(b: bytes, c: ParseCtx, k: nat)
    ensures TailAt(b, c, 5 + 2 * k, |c.procName|) ==> |b| >= 28 + 2 * k + |c.procName|
  {
  }

  /** A buffer holds at most one context. */
  lemma HoldsUnique(b: bytes, c: ParseCtx, d: ParseCtx)
    requires Holds(b, c) && Holds(b, d)
    ensures c == d
  {
    hide ReadBE, EncBE, EncCtx;
    LayoutByPosition(b, c);
    LayoutByPosition(b, d);
  }

  /** The context a buffer holds, if it holds one. */
  ghost function CtxOf(b: bytes): (r: Option<ParseCtx>)
    ensures r.Some? ==> Holds(b, r.value)
    ensures r.None? ==> forall c :: !Holds(b, c)
  {
    if exists c :: Holds(b, c) then var c :| Holds(b, c); Some(c) else None
  }

  /** Whatever follows the encoding of a context, the buffer holds that context. */
  lemma CtxRoundTrip(c: ParseCtx, rest: bytes)
    requires ValidCtx(c)
    ensures CtxOf(EncCtx(c) + rest) == Some(c)
  {
    hide EncCtx;
    assert Holds(EncCtx(c) + rest, c);
    HoldsUnique(EncCtx(c) + rest, c, CtxOf(EncCtx(c) + rest).value);
  }

  /** No proper prefix of an encoding holds any context. */
  lemma CtxPrefixRejected(c: ParseCtx, k: nat)
    requires ValidCtx(c) && k < |EncCtx(c)|
    ensures CtxOf(EncCtx(c)[..k]) == None
  {
    hide EncCtx;
    var b := EncCtx(c);
    if d: ParseCtx :| Holds(b[..k], d) {
      assert EncCtx(d) <= b[..k] <= b;
      assert b <= b;
      HoldsUnique(b, c, d);
      assert false;
    }
  }

  method DeserializeParseCtx(b: bytes) returns (ctx: Option<ParseCtx>)
    ensures ctx == CtxOf(b)
  {
    hide ReadBE, EncBE, EncCtx, Holds;
    ghost var held := CtxOf(b);
    if held.Some? {
      HeldIsValid(b, held.value);
      LayoutByPosition(b, held.value);
    }
    var off := 0;
    if off + 1 > |b| {
      return None;
    }
    var srcIp: bytes, dstIp: bytes, srcPort, dstPort := [], [], 0, 0;
    if b[0] == 4 {
      off := off + 1;
      if off + 12 > |b| {
        return None;
      }
      srcIp, dstIp := b[1..5], b[5..9];
      srcPort, dstPort := ReadU16(b[9..11]), ReadU16(b[11..13]);
      off := off + 12;
    } else if b[0] == 6 {
      off := off + 1;
      if off + 36 > |b| {
        return None;
      }
      srcIp, dstIp := b[1..17], b[17..33];
      srcPort, dstPort := ReadU16(b[33..35]), ReadU16(b[35..37]);
      off := off + 36;
    } else {
      return None;
    }
    if off + 13 > |b| {
      return None;
    }
    var l4 := b[off];
    if l4 != UDP && l4 != TCP {
      return None;
    }
    var l7 := b[off + 1];
    off := off + 2;
    var ebpfType := b[off];
    if !KnownEbpfType(ebpfType) {
      return None;
    }
    off := off + 1;
    var time := ReadU64(b[off..off + 8]);
    off := off + 8;
    var direction := b[off];
    if direction != DIRECTION_REQUEST && direction != DIRECTION_RESPONSE {
      return None;
    }
    off := off + 1;
    var procNameLen := b[off];
    off := off + 1;
    if off + procNameLen > |b| {
      return None;
    }
    var procName: bytes := [];
    if procNameLen != 0 {
      procName := b[off..off + procNameLen];
      off := off + procNameLen;
    }
    if off + 8 > |b| {
      return None;
    }
    var flowId := ReadU64(b[off..off + 8]);
    off := off + 8;
    if off + 2 > |b| {
      return None;
    }
    var bufSize := ReadU16(b[off..off + 2]);
    off := off + 2;
    var c := ParseCtx(srcIp, dstIp, srcPort, dstPort, l4, l7, ebpfType, time, direction, procName, flowId, bufSize);
    CtxIs(b, c);
    return Some(c);
  }

  lemma CtxIs(b: bytes, c: ParseCtx)
    requires ValidCtx(c) && At(b, c, |c.srcIp|)
    ensures CtxOf(b) == Some(c)
  {
    hide ReadBE, EncCtx, At;
    LayoutByPosition(b, c);
    assert Holds(b, c);
    HoldsUnique(b, c, CtxOf(b).value);
  }

  // ---------------------------------------------------------------------------------------
  // Byte by byte
  // ---------------------------------------------------------------------------------------

  /** The bytes of a context and of what follows, in the order in which the host writes them:
      first the addresses and ports, then the rest. */
  function HeadBytes(kind: byte, src: bytes, dst: bytes, ports: bytes, tail: bytes): bytes {
    [kind] + src + dst + ports + tail
  }

  function TailBytes(protocols: bytes, time: bytes, direction: byte, name: bytes, flow: bytes, size: bytes,
                     rest: bytes): bytes
    requires |name| <= 255
  {
    protocols + time + [direction, |name|] + name + flow + size + rest
  }

  lemma HeadByByte(kind: byte, src: bytes, dst: bytes, ports: bytes, tail: bytes)
    requires |src| == |dst| && |ports| == 4
    ensures var b, k := HeadBytes(kind, src, dst, ports, tail), |src|;
            && |b| == 5 + 2 * k + |tail| && b[0] == kind && b[1..1 + k] == src && b[1 + k..1 + 2 * k] == dst
            && b[1 + 2 * k..3 + 2 * k] == [ports[0], ports[1]] && b[3 + 2 * k..5 + 2 * k] == [ports[2], ports[3]]
            && b[5 + 2 * k..] == tail
  {
  }

  /** Each field read back from its place, numbers with the high byte first. */
  lemma CtxByByte(kind: byte, src: bytes, dst: bytes, ports: bytes, protocols: bytes, time: bytes, direction: byte,
                  name: bytes, flow: bytes, size: bytes, rest: bytes)
    requires (kind == 4 && |src| == |dst| == 4) || (kind == 6 && |src| == |dst| == 16)
    requires |ports| == 4 && |protocols| == 3 && |time| == |flow| == 8 && |size| == 2 && |name| <= 255
    requires (protocols[0] == 6 || protocols[0] == 17) && direction <= 1
    requires protocols[2] <= 2 || protocols[2] == 5 || protocols[2] == 8 || protocols[2] == 255
    ensures ReadBE(time) < TWO_64 && ReadBE(flow) < TWO_64
    ensures CtxOf(HeadBytes(kind, src, dst, ports, TailBytes(protocols, time, direction, name, flow, size, rest)))
         == Some(ParseCtx(src, dst, 256 * (ports[0] as int) + ports[1], 256 * (ports[2] as int) + ports[3],
                          protocols[0], protocols[1], protocols[2], ReadBE(time), direction, name,
                          ReadBE(flow), 256 * (size[0] as int) + size[1]))
  {
    hide ReadBE, EncBE, CtxOf, HeadBytes, TailBytes, TailAt;
    var tail := TailBytes(protocols, time, direction, name, flow, size, rest);
    var b := HeadBytes(kind, src, dst, ports, tail);
    var k := |src|;
    HeadByByte(kind, src, dst, ports, tail);
    var p := 5 + 2 * k;
    ReadBEBound(time);
    ReadBEBound(flow);
    Widths();
    TwoBytes(ports[0], ports[1]);
    TwoBytes(ports[2], ports[3]);
    var c := ParseCtx(src, dst, 256 * (ports[0] as int) + ports[1], 256 * (ports[2] as int) + ports[3],
                      protocols[0], protocols[1], protocols[2], ReadBE(time), direction, name, ReadBE(flow),
                      256 * (size[0] as int) + size[1]);
    TailAtByByte(b, c, p, protocols, time, name, flow, size, rest);
    CtxIs(b, c);
  }

  lemma TailAtByByte(b: bytes, c: ParseCtx, p: nat, protocols: bytes, time: bytes, name: bytes, flow: bytes,
                     size: bytes, rest: bytes)
    requires p <= |b| && |name| <= 255 && |protocols| == 3 && |time| == |flow| == 8 && |size| == 2
    requires b[p..] == TailBytes(protocols, time, c.direction, name, flow, size, rest)
    requires c.l4 == protocols[0] && c.l7 == protocols[1] && c.ebpfType == protocols[2] && c.procName == name
    requires c.time == ReadBE(time) && c.flowId == ReadBE(flow) && c.bufSize == 256 * (size[0] as int) + size[1]
    ensures TailAt(b, c, p, |name|)
  {
    hide ReadBE, TailBytes;
    TailByByte(b, p, protocols, time, c.direction, name, flow, size, rest);
    TwoBytes(size[0], size[1]);
  }

  lemma TailByByte(b: bytes, p: nat, protocols: bytes, time: bytes, direction: byte, name: bytes, flow: bytes,
                   size: bytes, rest: bytes)
    requires p <= |b| && |name| <= 255
    requires b[p..] == TailBytes(protocols, time, direction, name, flow, size, rest)
    requires |protocols| == 3 && |time| == |flow| == 8 && |size| == 2
    ensures var n := |name|;
            && |b| >= p + 23 + n
            && b[p] == protocols[0] && b[p + 1] == protocols[1] && b[p + 2] == protocols[2]
            && b[p + 3..p + 11] == time && b[p + 11] == direction && b[p + 12] == n && b[p + 13..p + 13 + n] == name
            && b[p + 13 + n..p + 21 + n] == flow && b[p + 21 + n..p + 23 + n] == [size[0], size[1]]
  {
    var n, t := |name|, b[p..];
    assert b[p + 3..p + 11] == t[3..11] && b[p + 13..p + 13 + n] == t[13..13 + n];
    assert b[p + 13 + n..p + 21 + n] == t[13 + n..21 + n] && b[p + 21 + n..p + 23 + n] == t[21 + n..23 + n];
    assert b[p] == t[0] && b[p + 1] == t[1] && b[p + 2] == t[2] && b[p + 11] == t[11] && b[p + 12] == t[12];
  }

  /** Which buffers are accepted: address kinds 4 and 6, protocols 6 (TCP) and 17 (UDP), eBPF
      types 0, 1, 2, 5, 8 and 255, directions 0 and 1, and all bytes there. */
  lemma CtxAccepted(b: bytes)
    ensures CtxOf(b).Some? <==>
            && |b| >= 1 && (b[0] == 4 || b[0] == 6)
            && var p := if b[0] == 4 then 13 else 37;
               && |b| >= p + 13
               && (b[p] == 6 || b[p] == 17)
               && (b[p + 2] <= 2 || b[p + 2] == 5 || b[p + 2] == 8 || b[p + 2] == 255)
               && b[p + 11] <= 1
               && |b| >= p + 23 + (b[p + 12] as int)
  {
    hide ReadBE, EncBE, EncCtx, Holds;
    if CtxOf(b).Some? {
      HeldIsValid(b, CtxOf(b).value);
      LayoutByPosition(b, CtxOf(b).value);
    } else if |b| >= 1 && (b[0] == 4 || b[0] == 6) {
      var p, k := if b[0] == 4 then 13 else 37, if b[0] == 4 then 4 else 16;
      if |b| >= p + 13 && |b| >= p + 23 + (b[p + 12] as int) {
        var n := b[p + 12] as int;
        var c := ParseCtx(b[1..1 + k], b[1 + k..1 + 2 * k], ReadU16(b[1 + 2 * k..3 + 2 * k]),
                          ReadU16(b[3 + 2 * k..5 + 2 * k]), b[p], b[p + 1], b[p + 2], ReadU64(b[p + 3..p + 11]),
                          b[p + 11], b[p + 13..p + 13 + n], ReadU64(b[p + 13 + n..p + 21 + n]),
                          ReadU16(b[p + 21 + n..p + 23 + n]));
        if ValidCtx(c) { CtxIs(b, c); }
      }
    }
  }

  lemma HeldIsValid(b: bytes, c: ParseCtx)
    ensures Holds(b, c) ==> ValidCtx(c)
  {
  }

  function ReadU16(b: bytes): (x: u16)
    requires |b| == 2
    ensures x == ReadBE(b)
  {
    ReadBEBound(b); Widths(); ReadBE(b)
  }

  function ReadU32(b: bytes): (x: u32)
    requires |b| == 4
    ensures x == ReadBE(b)
  {
    ReadBEBound(b); Widths(); ReadBE(b)
  }

  function ReadU64(b: bytes): (x: u64)
    requires |b| == 8
    ensures x == ReadBE(b)
  {
    ReadBEBound(b); Widths(); ReadBE(b)
  }
}
