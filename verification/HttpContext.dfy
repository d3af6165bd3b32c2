/** Length-prefixed strings, their writer, and the HTTP contexts read by sdk/serde.go. */
module HttpContext {
  import opened Machine
  import opened BigEndian
  import opened Context

  // ---------------------------------------------------------------------------------------
  // Length-prefixed strings
  // ---------------------------------------------------------------------------------------

  function EncStr(s: bytes): (b: bytes)
    ensures |b| == 2 + |s|
  {
    EncBE(|s|, 2) + s
  }

  function EncStrs(ss: seq<bytes>): bytes {
    if ss == [] then [] else EncStr(ss[0]) + EncStrs(ss[1..])
  }

  ghost predicate Short(ss: seq<bytes>) {
    forall s :: s in ss ==> |s| < TWO_16
  }

  /** The front string of b. */
  lemma FrontStr(b: bytes, s: bytes, y: bytes)
    requires |s| < TWO_16
    ensures EncStr(s) + y <= b <==>
            && 2 <= |b| && ReadBE(b[..2]) == |s|
            && 2 + |s| <= |b| && b[2..2 + |s|] == s && y <= b[2 + |s|..]
  {
    hide EncBE, ReadBE;
    assert EncStr(s) + y == EncBE(|s|, 2) + (s + y);
    assert b[0..] == b;
    if 2 + |s| <= |b| {
      Widths();
      NumberPiece(b, 0, |s|, 2, s + y);
      assert b[0..2] == b[..2];
      Piece(b, 2, s, y);
    }
  }

  /** How `writeStr` ends: true with a new offset, false, or with an index out of range. */
  datatype WriteResult = Wrote(off: nat) | NoRoom | OutOfRange

  /** `writeStr`: succeeds exactly when the string and its length fit behind the offset;
      otherwise nothing changes. The stored length has 16 bits. The check adds up in an `int`;
      when the sum wraps around, the check passes and a slice expression panics. */
  method WriteStr(s: bytes, buf: array<byte>, offset: nat) returns (r: WriteResult)
    requires |s| <= MAX_INT && offset <= MAX_INT && buf.Length <= MAX_INT
    modifies buf
    ensures r == if offset + 2 + |s| > MAX_INT then OutOfRange
                 else if offset + 2 + |s| > buf.Length then NoRoom
                 else Wrote(offset + 2 + |s|)
    ensures r.Wrote? ==> buf[offset..r.off] == EncStr(s)
    ensures forall k :: 0 <= k < buf.Length && (r.NoRoom? || k < offset || offset + 2 + |s| <= k) ==>
              buf[k] == old(buf[k])
  {
    hide ToInt, EncBE;
    var l, off := |s|, offset;
    SumOrWrap(off, l);
    if Plus(Plus(off, 2), l) > buf.Length {
      return NoRoom;
    }
    if Plus(off, 2) < off || Plus(off, 2) > buf.Length {
      return OutOfRange;
    }
    var prefix := EncBE(l, 2);
    buf[off], buf[off + 1] := prefix[0], prefix[1];
    off := off + 2;
    if Plus(off, l) < off || Plus(off, l) > buf.Length {
      return OutOfRange;
    }
    forall k | 0 <= k < l {
      buf[off + k] := s[k];
    }
    assert buf[off..off + l] == s;
    assert buf[offset..off] == prefix;
    assert buf[offset..off + l] == buf[offset..off] + buf[off..off + l];
    r := Wrote(off + l);
  }

  /** The sums of `writeStr` are exact, or wrap around to something that is no index. */
  lemma SumOrWrap(off: nat, l: nat)
    requires off <= MAX_INT && l <= MAX_INT
    ensures if off + 2 + l <= MAX_INT
            then Plus(Plus(off, 2), l) == off + 2 + l && Plus(off, 2) == off + 2
            else Plus(Plus(off, 2), l) <= 0
                 && (off + 2 > MAX_INT ==> Plus(off, 2) < 0)
                 && (off + 2 <= MAX_INT ==> Plus(off, 2) == off + 2 && Plus(off + 2, l) <= 0)
  {
    hide ToInt;
    PlusStep(off + 2, l);
    if off + 2 + l > MAX_INT { ToIntWraps(off + 2 + l); }
    if off + 2 > MAX_INT { ToIntWraps(off + 2); }
  }

  /** The same on values: what the buffer and the offset are after the call. */
  function Written(buf: bytes, offset: nat, s: bytes): Option<(bytes, nat)> {
    if offset + 2 + |s| > |buf| then None
    else Some((buf[..offset] + EncStr(s) + buf[offset + 2 + |s|..], offset + 2 + |s|))
  }

  lemma WriteStrIsWritten(before: bytes, after: bytes, offset: nat, s: bytes)
    requires |before| == |after| && offset + 2 + |s| <= |before|
    requires after[offset..offset + 2 + |s|] == EncStr(s)
    requires forall k :: 0 <= k < |before| && !(offset <= k < offset + 2 + |s|) ==> after[k] == before[k]
    ensures Written(before, offset, s) == Some((after, offset + 2 + |s|))
  {
    hide EncStr;
    assert after == after[..offset] + after[offset..offset + 2 + |s|] + after[offset + 2 + |s|..];
    assert after[..offset] == before[..offset];
    assert after[offset + 2 + |s|..] == before[offset + 2 + |s|..];
  }

  function WrittenAll(buf: bytes, offset: nat, ss: seq<bytes>): Option<(bytes, nat)>
    decreases |ss|
  {
    if ss == [] then Some((buf, offset))
    else
      match Written(buf, offset, ss[0])
      case None => None
      case Some((b, o)) => WrittenAll(b, o, ss[1..])
  }

  /** Strings written one after another make up their encodings, in a buffer so small that
      no length is truncated. */
  lemma {:induction false} WrittenStrings(buf: bytes, offset: nat, ss: seq<bytes>)
    requires |buf| <= TWO_16 && offset <= |buf| && WrittenAll(buf, offset, ss).Some?
    ensures var (b, o) := WrittenAll(buf, offset, ss).value;
            && |b| == |buf| && offset <= o <= |b|
            && b[..offset] == buf[..offset] && b[offset..o] == EncStrs(ss)
    ensures Short(ss)
    decreases |ss|
  {
    hide EncStr;
    if ss == [] {
      assert buf[offset..offset] == [];
    } else {
      var (b1, o1) := Written(buf, offset, ss[0]).value;
      WrittenStrings(b1, o1, ss[1..]);
      var (b, o) := WrittenAll(buf, offset, ss).value;
      assert b1[..offset] == buf[..offset] && b1[offset..o1] == EncStr(ss[0]);
      assert b[offset..o1] == b[..o1][offset..] == b1[..o1][offset..] == b1[offset..o1];
      assert b[..offset] == b[..o1][..offset] == b1[..o1][..offset] == b1[..offset];
      assert b[offset..o] == b[offset..o1] + b[o1..o];
    }
  }

  // ---------------------------------------------------------------------------------------
  // HTTP request context
  // ---------------------------------------------------------------------------------------

  datatype HttpReqCtx = HttpReqCtx(base: ParseCtx, path: bytes, host: bytes, userAgent: bytes, referer: bytes)

  /** Four strings at the front of b. */
  ghost predicate HoldsStrs(b: bytes, ss: seq<bytes>) {
    Short(ss) && EncStrs(ss) <= b
  }

  lemma {:induction false} HoldsStrsUnique(b: bytes, ss: seq<bytes>, ts: seq<bytes>)
    requires HoldsStrs(b, ss) && HoldsStrs(b, ts) && |ss| == |ts|
    ensures ss == ts
    decreases |ss|
  {
    hide EncStr;
    if ss != [] {
      FrontStr(b, ss[0], EncStrs(ss[1..]));
      FrontStr(b, ts[0], EncStrs(ts[1..]));
      HoldsStrsUnique(b[2 + |ss[0]|..], ss[1..], ts[1..]);
    }
  }

  lemma {:induction false} EncStrsSize(ss: seq<bytes>)
    ensures |EncStrs(ss)| >= 2 * |ss|
  {
    if ss != [] { EncStrsSize(ss[1..]); }
  }

  lemma {:induction false} EncStrsConcat(ss: seq<bytes>, ts: seq<bytes>)
    ensures EncStrs(ss + ts) == EncStrs(ss) + EncStrs(ts)
    decreases |ss|
  {
    hide EncStr;
    if ss == [] {
      assert ss + ts == ts;
    } else {
      EncStrsConcat(ss[1..], ts);
      assert (ss + ts)[1..] == ss[1..] + ts;
      assert EncStrs(ss + ts) == EncStr(ss[0]) + (EncStrs(ss[1..]) + EncStrs(ts));
    }
  }

  /** The strings still to be read, when the whole buffer holds `all` and the first i of them
      lie before off. */
  lemma HoldsRest(b: bytes, done: seq<bytes>, all: seq<bytes>)
    requires HoldsStrs(b, all) && |done| < |all| && HoldsStrs(b, done)
    ensures var off, s := |EncStrs(done)|, all[|done|];
            off + 2 + |s| <= |b| && ReadBE(b[off..off + 2]) == |s| && b[off + 2..off + 2 + |s|] == s
  {
    hide EncStr, EncStrs, ReadBE;
    var k := |done|;
    assert all == all[..k] + all[k..];
    EncStrsConcat(all[..k], all[k..]);
    assert EncStrs(all[..k]) <= b;
    HoldsStrsUnique(b, done, all[..k]);
    var off, s := |EncStrs(done)|, all[k];
    assert b[0..] == b;
    Piece(b, 0, EncStrs(done), EncStrs(all[k..]));
    FrontOfStrs(all[k..]);
    FrontStr(b[off..], s, EncStrs(all[k..][1..]));
    assert b[off..][..2] == b[off..off + 2] && b[off..][2..2 + |s|] == b[off + 2..off + 2 + |s|];
  }

  lemma FrontOfStrs(ss: seq<bytes>)
    requires ss != []
    ensures EncStrs(ss) == EncStr(ss[0]) + EncStrs(ss[1..])
  {
  }

  /** What a request buffer holds next to its base context. */
  ghost function HttpReqOf(paramBuf: bytes, buf: bytes): (r: Option<HttpReqCtx>)
    ensures r.Some? ==>
              && CtxOf(paramBuf) == Some(r.value.base)
              && HoldsStrs(buf, [r.value.path, r.value.host, r.value.userAgent, r.value.referer])
    ensures r.None? ==> CtxOf(paramBuf) == None || forall ss :: |ss| == 4 ==> !HoldsStrs(buf, ss)
  {
    if CtxOf(paramBuf).Some? && exists ss :: |ss| == 4 && HoldsStrs(buf, ss) then
      var ss :| |ss| == 4 && HoldsStrs(buf, ss);
      assert ss == [ss[0], ss[1], ss[2], ss[3]];
      Some(HttpReqCtx(CtxOf(paramBuf).value, ss[0], ss[1], ss[2], ss[3]))
    else None
  }

  /** `deserializeHttpReqCtx` accepts exactly a held base context with four strings, and
      returns them. */
  method DeserializeHttpReqCtx(paramBuf: bytes, buf: bytes) returns (ctx: Option<HttpReqCtx>)
    ensures ctx == HttpReqOf(paramBuf, buf)
  {
    hide EncStr, EncStrs, ReadBE, Short;
    if |buf| < 8 {
      TooShort(buf);
      return None;
    }
    var base := DeserializeParseCtx(paramBuf);
    if base.None? {
      return None;
    }
    var off := 0;
    var s: seq<bytes> := [];
    NoStrs();
    for i := 0 to 4
      invariant |s| == i && off == |EncStrs(s)| <= |buf| && HoldsStrs(buf, s)
    {
      forall all | |all| == 4 && HoldsStrs(buf, all)
        ensures off + 2 + |all[i]| <= |buf| && ReadBE(buf[off..off + 2]) == |all[i]|
      {
        HoldsRest(buf, s, all);
      }
      if off + 2 > |buf| {
        return None;
      }
      var strLen := ReadU16(buf[off..off + 2]) as int;
      var next: bytes := [];
      if strLen != 0 {
        if off + 2 + strLen > |buf| {
          return None;
        }
        next := buf[off + 2..off + 2 + strLen];
      }
      NextStr(buf, s, next);
      off := off + 2 + strLen;
      s := s + [next];
    }
    assert s == [s[0], s[1], s[2], s[3]];
    ctx := Some(HttpReqCtx(base.value, s[0], s[1], s[2], s[3]));
    ghost var c := HttpReqOf(paramBuf, buf).value;
    HoldsStrsUnique(buf, s, [c.path, c.host, c.userAgent, c.referer]);
  }

  lemma NoStrs()
    ensures EncStrs([]) == [] && Short([])
  {
  }

  lemma TooShort(b: bytes)
    requires |b| < 8
    ensures forall ss: seq<bytes> :: |ss| == 4 ==> !HoldsStrs(b, ss)
  {
    forall ss: seq<bytes> | |ss| == 4 ensures !HoldsStrs(b, ss) { EncStrsSize(ss); }
  }

  lemma OneStr(s: bytes)
    ensures EncStrs([s]) == EncStr(s)
  {
  }

  lemma NextStr(b: bytes, s: seq<bytes>, next: bytes)
    requires HoldsStrs(b, s)
    requires var off := |EncStrs(s)|;
             && off + 2 + |next| <= |b| && ReadBE(b[off..off + 2]) == |next| < TWO_16
             && b[off + 2..off + 2 + |next|] == next
    ensures HoldsStrs(b, s + [next])
    ensures |EncStrs(s + [next])| == |EncStrs(s)| + 2 + |next|
  {
    hide EncStrs, ReadBE, EncBE;
    var off := |EncStrs(s)|;
    EncStrsConcat(s, [next]);
    OneStr(next);
    Widths();
    BEField(|next|, b[off..off + 2]);
    assert b[..off + 2 + |next|] == b[..off] + (b[off..off + 2] + b[off + 2..off + 2 + |next|]);
  }

  /** The writer and the reader agree: four strings written one after another into a buffer
      of at most 65536 bytes are the four strings the decoder returns. */
  lemma {:induction false} WriterReaderAgree(buf: bytes, ss: seq<bytes>, paramBuf: bytes)
    requires |ss| == 4 && |buf| <= TWO_16 && WrittenAll(buf, 0, ss).Some? && CtxOf(paramBuf).Some?
    ensures HttpReqOf(paramBuf, WrittenAll(buf, 0, ss).value.0)
         == Some(HttpReqCtx(CtxOf(paramBuf).value, ss[0], ss[1], ss[2], ss[3]))
  {
    hide EncStr, EncStrs;
    WrittenStrings(buf, 0, ss);
    var (b, o) := WrittenAll(buf, 0, ss).value;
    assert b[0..o] == b[..o];
    assert HoldsStrs(b, ss);
    var c := HttpReqOf(paramBuf, b).value;
    HoldsStrsUnique(b, ss, [c.path, c.host, c.userAgent, c.referer]);
  }

  /** Strings written one after another by `writeStr`, until one does not fit. */
  method WriteStrs(ss: seq<bytes>, buf: array<byte>) returns (ok: bool, off: nat)
    requires buf.Length <= TWO_16 && forall s :: s in ss ==> |s| <= MAX_INT
    modifies buf
    ensures WrittenAll(old(buf[..]), 0, ss) == if ok then Some((buf[..], off)) else None
  {
    hide EncStr;
    ok, off := true, 0;
    for i := 0 to |ss|
      invariant off <= buf.Length
      invariant WrittenAll(old(buf[..]), 0, ss) == WrittenAll(buf[..], off, ss[i..])
    {
      ghost var before := buf[..];
      assert ss[i..][1..] == ss[i + 1..];
      var r := WriteStr(ss[i], buf, off);
      match r {
        case Wrote(next) =>
          WriteStrIsWritten(before, buf[..], off, ss[i]);
          off := next;
        case _ => return false, off;
      }
    }
  }

  /** What four calls of `writeStr` put into a buffer of at most 65536 bytes is what the
      decoder reads; they succeed exactly when the buffer has room for the strings. */
  method WriteHttpReq(path: bytes, host: bytes, userAgent: bytes, referer: bytes, buf: array<byte>,
                      ghost paramBuf: bytes)
    returns (ok: bool)
    requires buf.Length <= TWO_16 && CtxOf(paramBuf).Some?
    requires |path| <= MAX_INT && |host| <= MAX_INT && |userAgent| <= MAX_INT && |referer| <= MAX_INT
    modifies buf
    ensures ok ==>
              HttpReqOf(paramBuf, buf[..]) == Some(HttpReqCtx(CtxOf(paramBuf).value, path, host, userAgent, referer))
    ensures ok <==> 8 + |path| + |host| + |userAgent| + |referer| <= buf.Length
  {
    hide EncStr, EncStrs, Written, WrittenAll;
    ghost var before := buf[..];
    var ss := [path, host, userAgent, referer];
    var off;
    ok, off := WriteStrs(ss, buf);
    WrittenSize(before, ss);
    if ok { WriterReaderAgree(before, ss, paramBuf); }
  }

  lemma WrittenSize(buf: bytes, ss: seq<bytes>)
    requires |ss| == 4
    ensures WrittenAll(buf, 0, ss).Some? <==> 8 + |ss[0]| + |ss[1]| + |ss[2]| + |ss[3]| <= |buf|
  {
    hide EncStr;
    var o1 := 2 + |ss[0]|;
    var o2 := o1 + 2 + |ss[1]|;
    var o3 := o2 + 2 + |ss[2]|;
    WrittenEach(buf, 0, ss);
    if o1 <= |buf| {
      var b1 := Written(buf, 0, ss[0]).value.0;
      WrittenEach(b1, o1, ss[1..]);
      if o2 <= |buf| {
        var b2 := Written(b1, o1, ss[1]).value.0;
        WrittenEach(b2, o2, ss[1..][1..]);
        if o3 <= |buf| {
          var b3 := Written(b2, o2, ss[2]).value.0;
          WrittenEach(b3, o3, ss[1..][1..][1..]);
        }
      }
    }
  }

  lemma WrittenEach(buf: bytes, offset: nat, ss: seq<bytes>)
    requires ss != []
    ensures offset + 2 + |ss[0]| > |buf| ==> WrittenAll(buf, offset, ss) == None
    ensures offset + 2 + |ss[0]| <= |buf| ==>
              var w := Written(buf, offset, ss[0]);
              && w.Some? && |w.value.0| == |buf| && w.value.1 == offset + 2 + |ss[0]|
              && WrittenAll(buf, offset, ss) == WrittenAll(w.value.0, w.value.1, ss[1..])
  {
  }

  // ---------------------------------------------------------------------------------------
  // HTTP response context
  // ---------------------------------------------------------------------------------------

  datatype HttpRespCtx = HttpRespCtx(base: ParseCtx, code: u16, status: u8, endpoint: bytes)

  predicate KnownStatus(s: u8) {
    s in {0, 2, 3, 4, 5}
  }

  /** A non-empty string with its length at the front of `tail`. */
  predicate Fronts(s: bytes, tail: bytes) {
    s != [] && |s| < TWO_16 && EncStr(s) <= tail
  }

  ghost function FrontString(tail: bytes): (r: bytes)
    ensures r != [] ==> Fronts(r, tail)
    ensures r == [] ==> forall s :: !Fronts(s, tail)
  {
    if exists s :: Fronts(s, tail) then var s :| Fronts(s, tail); s else []
  }

  /** What a response buffer holds next to its base context. The endpoint is what a newer
      host appends; an older one stops after three bytes, and a length that leads past the
      end is ignored. */
  ghost function HttpRespOf(paramBuf: bytes, buf: bytes): (r: Option<HttpRespCtx>)
    ensures r.Some? <==> |buf| >= 3 && KnownStatus(buf[2]) && CtxOf(paramBuf).Some?
  {
    if |buf| >= 3 && KnownStatus(buf[2]) && CtxOf(paramBuf).Some? then
      Some(HttpRespCtx(CtxOf(paramBuf).value, ReadU16(buf[..2]), buf[2], FrontString(buf[3..])))
    else None
  }

  /** The optional string behind the first three bytes. */
  method DecodeEndpoint(buf: bytes) returns (endpoint: bytes)
    requires |buf| >= 3
    ensures endpoint == FrontString(buf[3..])
  {
    hide FrontString, ReadBE;
    ghost var tail := buf[3..];
    FrontStringByPosition(tail);
    endpoint := [];
    var off := 3;
    if off + 2 <= |buf| {
      assert tail[..2] == buf[3..5];
      var endpointLen := ReadU16(buf[off..off + 2]) as int;
      off := off + 2;
      if endpointLen > 0 && off + endpointLen <= |buf| {
        endpoint := buf[off..off + endpointLen];
        assert tail[2..2 + endpointLen] == endpoint;
      }
    }
  }

  lemma FrontStringByPosition(tail: bytes)
    ensures |tail| < 2 ==> FrontString(tail) == []
    ensures |tail| >= 2 ==>
              var n := ReadBE(tail[..2]);
              FrontString(tail) == if n == 0 || 2 + n > |tail| then [] else tail[2..2 + n]
  {
    hide Fronts, EncStr, ReadBE, FrontString;
    var held := FrontString(tail);
    FrontsByPosition(held, tail);
    if held == [] && |tail| >= 2 {
      var n := ReadBE(tail[..2]);
      if 0 < n && 2 + n <= |tail| {
        FrontsByPosition(tail[2..2 + n], tail);
      }
    }
  }

  lemma FrontsByPosition(s: bytes, tail: bytes)
    ensures Fronts(s, tail) <==> s != [] && 2 + |s| <= |tail| && ReadBE(tail[..2]) == |s| && tail[2..2 + |s|] == s
  {
    hide EncStr, ReadBE;
    if |tail| >= 2 {
      ReadBEBound(tail[..2]);
      Widths();
    }
    if |s| < TWO_16 {
      FrontStr(tail, s, []);
      assert EncStr(s) + [] == EncStr(s);
    }
  }

  method DeserializeHttpRespCtx(paramBuf: bytes, buf: bytes) returns (ctx: Option<HttpRespCtx>)
    ensures ctx == HttpRespOf(paramBuf, buf)
  {
    hide EncStr, ReadBE, EncBE;
    if |buf| < 3 {
      return None;
    }
    var status := buf[2];
    if !KnownStatus(status) {
      return None;
    }
    var base := DeserializeParseCtx(paramBuf);
    if base.None? {
      return None;
    }
    var endpoint := DecodeEndpoint(buf);
    return Some(HttpRespCtx(base.value, ReadU16(buf[..2]), status, endpoint));
  }

  /** A response buffer laid out with an endpoint is read back, whatever follows. */
  lemma EndpointRoundTrip(head: bytes, endpoint: bytes, rest: bytes)
    requires |head| == 3 && |endpoint| < TWO_16
    ensures FrontString((head + EncStr(endpoint) + rest)[3..]) == endpoint
  {
    hide EncStr, Fronts;
    var tail := (head + EncStr(endpoint) + rest)[3..];
    assert tail == EncStr(endpoint) + rest;
    FrontStr(tail, endpoint, rest);
    FrontsByPosition(endpoint, tail);
    FrontsByPosition(FrontString(tail), tail);
  }

  /** The layout of a response buffer, read back: the code with its high byte first, the
      status, and the endpoint if the host sends one, whatever follows. */
  lemma HttpRespRoundTrip(paramBuf: bytes, high: byte, low: byte, status: byte, endpoint: bytes, rest: bytes)
    requires CtxOf(paramBuf).Some? && |endpoint| < 0x1_0000
    requires status == 0 || status == 2 || status == 3 || status == 4 || status == 5
    ensures HttpRespOf(paramBuf, [high, low, status] + ([|endpoint| / 256, |endpoint| % 256] + (endpoint + rest)))
         == Some(HttpRespCtx(CtxOf(paramBuf).value, 256 * high + low, status, endpoint))
    ensures HttpRespOf(paramBuf, [high, low, status])
         == Some(HttpRespCtx(CtxOf(paramBuf).value, 256 * high + low, status, []))
  {
    hide CtxOf, FrontString, ReadBE;
    var long, short := [|endpoint| / 256, |endpoint| % 256] + (endpoint + rest), [high, low, status];
    TwoBytes(high, low);
    FrontStringOf(endpoint, rest);
    FrontStringByPosition([]);
    assert (short + long)[..2] == [high, low] && (short + long)[3..] == long;
    assert short[..2] == [high, low] && short[3..] == [];
  }

  lemma FrontStringOf(s: bytes, rest: bytes)
    requires |s| < 0x1_0000
    ensures FrontString([|s| / 256, |s| % 256] + (s + rest)) == s
  {
    hide FrontString, ReadBE;
    var tail := [|s| / 256, |s| % 256] + (s + rest);
    TwoBytes(|s| / 256, |s| % 256);
    FrontStringByPosition(tail);
    assert tail[..2] == [|s| / 256, |s| % 256] && tail[2..2 + |s|] == s;
  }

  /** Any other status, a shorter buffer and an invalid base context are rejected. */
  lemma HttpRespRejected(paramBuf: bytes, buf: bytes)
    ensures HttpRespOf(paramBuf, buf) == None <==>
            CtxOf(paramBuf) == None || |buf| < 3 || buf[2] == 1 || buf[2] > 5
  {
  }
}
