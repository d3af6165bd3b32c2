/** The generated methods of `AppTrace`. */
module AppTraces {
  import opened Machine
  import opened Varint
  import opened Wire
  import opened Codec
  import opened Messages
  import opened Buffers

  class AppTrace {
    var traceId: Option<bytes>
    var spanId: Option<bytes>
    var parentSpanId: Option<bytes>
    var xRequestId: Option<bytes>
    var httpProxyClient: Option<bytes>
    var traceIds: seq<bytes>
    var unknownFields: bytes

    /** The empty message `&AppTrace{}`. */
    constructor ()
      ensures Value() == NO_TRACE
    {
      traceId, spanId, parentSpanId, xRequestId, httpProxyClient := None, None, None, None, None;
      traceIds, unknownFields := [], [];
    }

    /** A message with its fields set, as a composite literal. */
    constructor Filled(traceId: Option<bytes>, spanId: Option<bytes>, parentSpanId: Option<bytes>,
                       xRequestId: Option<bytes>, httpProxyClient: Option<bytes>, traceIds: seq<bytes>)
      ensures Value() == TraceMsg(traceId, spanId, parentSpanId, xRequestId, httpProxyClient, traceIds, [])
    {
      this.traceId, this.spanId, this.parentSpanId := traceId, spanId, parentSpanId;
      this.xRequestId, this.httpProxyClient, this.traceIds := xRequestId, httpProxyClient, traceIds;
      unknownFields := [];
    }

    function Value(): TraceMsg
      reads this
    {
      TraceMsg(traceId, spanId, parentSpanId, xRequestId, httpProxyClient, traceIds, unknownFields)
    }

    method CloneVT() returns (r: AppTrace)
      ensures fresh(r) && r.Value() == Value()
    {
      r := new AppTrace();
      r.traceId := traceId;
      r.spanId := spanId;
      r.parentSpanId := parentSpanId;
      r.xRequestId := xRequestId;
      r.httpProxyClient := httpProxyClient;
      r.traceIds := traceIds;
      if |unknownFields| > 0 { r.unknownFields := unknownFields; }
    }

    method EqualVT(that: AppTrace) returns (r: bool)
      ensures r <==> Value() == that.Value()
    {
      if this == that {
        return true;
      }
      if traceId != that.traceId { return false; }
      if spanId != that.spanId { return false; }
      if parentSpanId != that.parentSpanId { return false; }
      if xRequestId != that.xRequestId { return false; }
      if httpProxyClient != that.httpProxyClient { return false; }
      if |traceIds| != |that.traceIds| { return false; }
      for i := 0 to |traceIds|
        invariant traceIds[..i] == that.traceIds[..i]
      {
        if traceIds[i] != that.traceIds[i] {
          return false;
        }
      }
      return unknownFields == that.unknownFields;
    }

    /** The size of the encoding, as far as an `int` can hold it. */
    method SizeVT() returns (n: int)
      ensures n == ToInt(|EncTrace(Value())|)
    {
      hide ToInt, Plus, EncRecs, OptDelim, DelimSize, SizeOfVarint;
      PlusIsSum();
      n := 0;
      n := Plus(n, DelimSize(1, traceId));
      n := Plus(n, DelimSize(1, spanId));
      n := Plus(n, DelimSize(1, parentSpanId));
      n := Plus(n, DelimSize(1, xRequestId));
      n := Plus(n, DelimSize(1, httpProxyClient));
      ghost var n0: nat := DelimSize(1, traceId) + DelimSize(1, spanId) + DelimSize(1, parentSpanId)
                           + DelimSize(1, xRequestId) + DelimSize(1, httpProxyClient);
      NoRecs();
      for i := 0 to |traceIds|
        invariant n == ToInt(n0 + |EncRecs(Repeated(6, traceIds[..i]))|)
      {
        RepeatedBack(6, traceIds, i);
        n := Plus(n, DelimSize(1, Some(traceIds[i])));
      }
      assert traceIds[..|traceIds|] == traceIds;
      n := Plus(n, |unknownFields|);
      ghost var r5 := OptDelim(5, httpProxyClient) + Repeated(6, traceIds);
      ghost var r4 := OptDelim(4, xRequestId) + r5;
      ghost var r3 := OptDelim(3, parentSpanId) + r4;
      ghost var r2 := OptDelim(2, spanId) + r3;
      DelimSizeExact(5, httpProxyClient, Repeated(6, traceIds));
      DelimSizeExact(4, xRequestId, r5);
      DelimSizeExact(3, parentSpanId, r4);
      DelimSizeExact(2, spanId, r3);
      DelimSizeExact(1, traceId, r2);
    }

    /** Fills the end of dAtA[lo..hi] backwards; panics exactly when it is too short. */
    method MarshalToSizedBufferVT(dAtA: array<byte>, lo: nat, hi: nat) returns (n: Option<nat>)
      requires lo <= hi <= dAtA.Length <= MAX_INT
      modifies dAtA
      ensures n == Fits(lo, hi, EncTrace(Value()))
      ensures n.Some? ==> dAtA[hi - n.value..hi] == EncTrace(Value())
      ensures Untouched(dAtA, lo, if n.Some? then hi - n.value else PANICKED, hi)
    {
      hide Written, EncRecs, OptDelim, Repeated;
      ghost var r5 := OptDelim(5, httpProxyClient) + Repeated(6, traceIds);
      ghost var r4 := OptDelim(4, xRequestId) + r5;
      ghost var r3 := OptDelim(3, parentSpanId) + r4;
      ghost var r2 := OptDelim(2, spanId) + r3;
      ghost var u := unknownFields;
      var i := PutUnknown(dAtA, lo, hi, unknownFields);
      NoRecs();
      assert EncRecs([]) + u == u;
      i := PutRepeated(dAtA, lo, i, hi, [0x32], traceIds, 6, u);
      i := PutOptDelim(dAtA, lo, i, hi, [0x2a], httpProxyClient, 5, Repeated(6, traceIds), u);
      i := PutOptDelim(dAtA, lo, i, hi, [0x22], xRequestId, 4, r5, u);
      i := PutOptDelim(dAtA, lo, i, hi, [0x1a], parentSpanId, 3, r4, u);
      i := PutOptDelim(dAtA, lo, i, hi, [0x12], spanId, 2, r3, u);
      i := PutOptDelim(dAtA, lo, i, hi, [0xa], traceId, 1, r2, u);
      Finished(dAtA, lo, i, hi, EncTrace(Value()));
      n := Reported(hi, i);
    }

    method UnmarshalVT(dAtA: bytes) returns (err: Option<Error>)
      requires |dAtA| <= MAX_INT
      modifies this
      ensures Outcome(Value(), err) == Decode(TRACE, old(Value()), dAtA)
    {
      hide Decode, ReadRec, ReadTag, ReadDelim, ReadUnknown, ReadVarint, Truncate, ToI32;
      var iNdEx := 0;
      assert dAtA[0..] == dAtA;
      while iNdEx < |dAtA|
        invariant iNdEx <= |dAtA|
        invariant Decode(TRACE, Value(), dAtA[iNdEx..]) == Decode(TRACE, old(Value()), dAtA)
        decreases |dAtA| - iNdEx
      {
        var preIndex := iNdEx;
        ghost var b := dAtA[preIndex..];
        DecodeCases(TRACE, Value(), b);
        var e, tag, next := DecodeTag(dAtA, iNdEx);
        if e.Some? {
          return e;
        }
        iNdEx := next;
        if 1 <= tag.num <= 6 {
          if tag.wireType != 2 {
            return Some(WrongWireType);
          }
          var s;
          assert dAtA[iNdEx..] == b[iNdEx - preIndex..];
          e, s, next := DecodeDelim(dAtA, iNdEx, Bits64);
          if e.Some? {
            return e;
          }
          match tag.num {
            case 1 => traceId := Some(s);
            case 2 => spanId := Some(s);
            case 3 => parentSpanId := Some(s);
            case 4 => xRequestId := Some(s);
            case 5 => httpProxyClient := Some(s);
            case 6 => traceIds := traceIds + [s];
          }
        } else {
          var u;
          e, u, next := DecodeSkip(dAtA, preIndex);
          if e.Some? {
            return e;
          }
          unknownFields := unknownFields + u;
        }
        iNdEx := next;
        assert dAtA[iNdEx..] == b[iNdEx - preIndex..];
      }
      assert dAtA[iNdEx..] == [];
      DecodeNothing(TRACE, Value());
      return None;
    }
  }
}
