/**
 What the codec is for. Decoding the bytes of a message into another merges it, by the rule
 "Last One Wins" of the Protocol Buffers Encoding specification and whatever order the writer
 picked; so decoding inverts writing, concatenation is merge, every accepted input has a
 normal form, and equal bytes mean equal messages.
 */
module RoundTrip {
  import opened Machine
  import opened Wire
  import opened Codec
  import opened Messages

  // ---------------------------------------------------------------------------------------
  // Merging, as the specification describes it
  // ---------------------------------------------------------------------------------------

  function Last<T>(x: Option<T>, m: Option<T>): Option<T> {
    if m.Some? then m else x
  }

  function LastNonEmpty(x: bytes, m: bytes): bytes {
    if m != [] then m else x
  }

  function MergeRequest(x: RequestMsg, m: RequestMsg): RequestMsg {
    RequestMsg(Last(x.version, m.version), Last(x.type_, m.type_), Last(x.domain, m.domain),
      Last(x.resource, m.resource), Last(x.endpoint, m.endpoint), x.unknown + m.unknown)
  }

  function MergeResponse(x: ResponseMsg, m: ResponseMsg): ResponseMsg {
    ResponseMsg(Last(x.status, m.status), Last(x.code, m.code), Last(x.exception, m.exception),
      Last(x.result, m.result), Last(x.type_, m.type_), Last(x.endpoint, m.endpoint), x.unknown + m.unknown)
  }

  function MergeTrace(x: TraceMsg, m: TraceMsg): TraceMsg {
    TraceMsg(Last(x.traceId, m.traceId), Last(x.spanId, m.spanId), Last(x.parentSpanId, m.parentSpanId),
      Last(x.xRequestId, m.xRequestId), Last(x.httpProxyClient, m.httpProxyClient),
      x.traceIds + m.traceIds, x.unknown + m.unknown)
  }

  function MergeKeyVal(x: KeyValMsg, m: KeyValMsg): KeyValMsg {
    KeyValMsg(LastNonEmpty(x.key, m.key), LastNonEmpty(x.val, m.val), x.unknown + m.unknown)
  }

  function MergeNats(x: NatsMsg, m: NatsMsg): NatsMsg {
    NatsMsg(LastNonEmpty(x.subject, m.subject), LastNonEmpty(x.replyTo, m.replyTo),
      LastNonEmpty(x.payload, m.payload), x.unknown + m.unknown)
  }

  /** The same arm merges, another arm replaces. */
  function MergeArm(x: Arm, m: Arm): Arm {
    match (x, m)
    case (_, NoArm) => x
    case (ReqArm(r), ReqArm(s)) => ReqArm(MergeRequest(r, s))
    case (RespArm(r), RespArm(s)) => RespArm(MergeResponse(r, s))
    case (_, _) => m
  }

  function MergeTraces(x: Option<TraceMsg>, m: Option<TraceMsg>): Option<TraceMsg> {
    match (x, m)
    case (_, None) => x
    case (None, Some(_)) => m
    case (Some(t), Some(u)) => Some(MergeTrace(t, u))
  }

  function MergeInfo(x: InfoMsg, m: InfoMsg): InfoMsg {
    InfoMsg(Last(x.reqLen, m.reqLen), Last(x.respLen, m.respLen), Last(x.requestId, m.requestId),
            MergeArm(x.arm, m.arm), MergeTraces(x.trace, m.trace), Last(x.protocolStr, m.protocolStr),
            Last(x.isEnd, m.isEnd), Last(x.isAsync, m.isAsync), Last(x.isReversed, m.isReversed),
            x.attributes + m.attributes, Last(x.bizType, m.bizType), Last(x.bizCode, m.bizCode),
            Last(x.bizScenario, m.bizScenario), Last(x.bizResponseCode, m.bizResponseCode),
            x.unknown + m.unknown)
  }

  // ---------------------------------------------------------------------------------------
  // Leaf messages
  // ---------------------------------------------------------------------------------------

  // A message is well formed when the unknown fields it carries are ones its type does not know.

  ghost predicate RequestWf(m: RequestMsg) { Unknown(RequestKind, m.unknown) }
  ghost predicate ResponseWf(m: ResponseMsg) { Unknown(ResponseKind, m.unknown) }
  ghost predicate TraceWf(m: TraceMsg) { Unknown(TraceKind, m.unknown) }
  ghost predicate KeyValWf(m: KeyValMsg) { Unknown(KeyValKind, m.unknown) }
  ghost predicate NatsWf(m: NatsMsg) { Unknown(NatsKind, m.unknown) }

  lemma RequestKeeps()
    ensures Keeps(REQUEST)
  {
    forall m: RequestMsg, u: bytes, v: bytes
      ensures REQUEST.keep(m, []) == m && REQUEST.keep(REQUEST.keep(m, u), v) == REQUEST.keep(m, u + v)
    {
      assert m.unknown + [] == m.unknown;
      assert m.unknown + u + v == m.unknown + (u + v);
    }
  }

  lemma RequestApply(x: RequestMsg, m: RequestMsg)
    ensures ApplyAll(REQUEST, x, RequestRecs(m)) == Outcome(MergeRequest(x, m).(unknown := x.unknown), None)
    ensures AllKnown(RequestKind, RequestRecs(m))
  {
    hide ApplyAll, AllKnown, OptDelim, OptVarint;
    var m1 := x.(version := Last(x.version, m.version));
    var m2 := m1.(type_ := Last(x.type_, m.type_));
    var m3 := m2.(domain := Last(x.domain, m.domain));
    var m4 := m3.(resource := Last(x.resource, m.resource));
    var m5 := m4.(endpoint := Last(x.endpoint, m.endpoint));
    var r5: seq<Rec> := OptDelim(5, m.endpoint) + [];
    var r4 := OptDelim(4, m.resource) + r5;
    var r3 := OptDelim(3, m.domain) + r4;
    var r2 := OptDelim(2, m.type_) + r3;
    PeelDelim(REQUEST, x, 1, m.version, r2, m1);
    PeelDelim(REQUEST, m1, 2, m.type_, r3, m2);
    PeelDelim(REQUEST, m2, 3, m.domain, r4, m3);
    PeelDelim(REQUEST, m3, 4, m.resource, r5, m4);
    PeelDelim(REQUEST, m4, 5, m.endpoint, [], m5);
    ApplyNone(REQUEST, m5);
  }

  lemma RequestMerges(x: RequestMsg, m: RequestMsg)
    requires RequestWf(m) && |EncRequest(m)| <= MAX_INT
    ensures Decode(REQUEST, x, EncRequest(m)) == Outcome(MergeRequest(x, m), None)
  {
    hide EncRecs, Decode, ApplyAll, AllKnown, Keeps, RequestRecs;
    RequestApply(x, m);
    RequestKeeps();
    DecodeWritten(REQUEST, x, RequestRecs(m), MergeRequest(x, m).(unknown := x.unknown), m.unknown);
  }

  lemma RequestRoundTrip(m: RequestMsg)
    requires RequestWf(m) && |EncRequest(m)| <= MAX_INT
    ensures Decode(REQUEST, NO_REQUEST, EncRequest(m)) == Outcome(m, None)
  {
    hide Decode, EncRequest;
    RequestMerges(NO_REQUEST, m);
    assert [] + m.unknown == m.unknown;
  }

  lemma ResponseKeeps()
    ensures Keeps(RESPONSE)
  {
    forall m: ResponseMsg, u: bytes, v: bytes
      ensures RESPONSE.keep(m, []) == m && RESPONSE.keep(RESPONSE.keep(m, u), v) == RESPONSE.keep(m, u + v)
    {
      assert m.unknown + [] == m.unknown;
      assert m.unknown + u + v == m.unknown + (u + v);
    }
  }

  lemma ResponseApply(x: ResponseMsg, m: ResponseMsg)
    ensures ApplyAll(RESPONSE, x, ResponseRecs(m)) == Outcome(MergeResponse(x, m).(unknown := x.unknown), None)
    ensures AllKnown(ResponseKind, ResponseRecs(m))
  {
    hide ApplyAll, AllKnown, OptDelim, OptVarint;
    var m1 := x.(status := Last(x.status, m.status));
    var m2 := m1.(code := Last(x.code, m.code));
    var m3 := m2.(exception := Last(x.exception, m.exception));
    var m4 := m3.(result := Last(x.result, m.result));
    var m5 := m4.(type_ := Last(x.type_, m.type_));
    var m6 := m5.(endpoint := Last(x.endpoint, m.endpoint));
    var r6: seq<Rec> := OptDelim(6, m.endpoint) + [];
    var r5 := OptDelim(5, m.type_) + r6;
    var r4 := OptDelim(4, m.result) + r5;
    var r3 := OptDelim(3, m.exception) + r4;
    var r2 := OptVarint(2, RawI32(m.code)) + r3;
    if m.status.Some? { SignExtendRoundTrip(m.status.value); }
    PeelVarint(RESPONSE, x, 1, RawI32(m.status), r2, m1);
    if m.code.Some? { SignExtendRoundTrip(m.code.value); }
    PeelVarint(RESPONSE, m1, 2, RawI32(m.code), r3, m2);
    PeelDelim(RESPONSE, m2, 3, m.exception, r4, m3);
    PeelDelim(RESPONSE, m3, 4, m.result, r5, m4);
    PeelDelim(RESPONSE, m4, 5, m.type_, r6, m5);
    PeelDelim(RESPONSE, m5, 6, m.endpoint, [], m6);
    ApplyNone(RESPONSE, m6);
  }

  lemma ResponseMerges(x: ResponseMsg, m: ResponseMsg)
    requires ResponseWf(m) && |EncResponse(m)| <= MAX_INT
    ensures Decode(RESPONSE, x, EncResponse(m)) == Outcome(MergeResponse(x, m), None)
  {
    hide EncRecs, Decode, ApplyAll, AllKnown, Keeps, ResponseRecs;
    ResponseApply(x, m);
    ResponseKeeps();
    DecodeWritten(RESPONSE, x, ResponseRecs(m), MergeResponse(x, m).(unknown := x.unknown), m.unknown);
  }

  lemma ResponseRoundTrip(m: ResponseMsg)
    requires ResponseWf(m) && |EncResponse(m)| <= MAX_INT
    ensures Decode(RESPONSE, NO_RESPONSE, EncResponse(m)) == Outcome(m, None)
  {
    hide Decode, EncResponse;
    ResponseMerges(NO_RESPONSE, m);
    assert [] + m.unknown == m.unknown;
  }

  lemma TraceKeeps()
    ensures Keeps(TRACE)
  {
    forall m: TraceMsg, u: bytes, v: bytes
      ensures TRACE.keep(m, []) == m && TRACE.keep(TRACE.keep(m, u), v) == TRACE.keep(m, u + v)
    {
      assert m.unknown + [] == m.unknown;
      assert m.unknown + u + v == m.unknown + (u + v);
    }
  }

  lemma {:induction false} ApplyTraceIds(m: TraceMsg, ids: seq<bytes>)
    ensures ApplyAll(TRACE, m, Repeated(6, ids)) == Outcome(m.(traceIds := m.traceIds + ids), None)
    decreases ids
  {
    if ids == [] {
      assert m.traceIds + [] == m.traceIds;
    } else {
      ApplyTraceIds(m.(traceIds := m.traceIds + [ids[0]]), ids[1..]);
      assert m.traceIds + [ids[0]] + ids[1..] == m.traceIds + ids;
    }
  }

  lemma TraceApply(x: TraceMsg, m: TraceMsg)
    ensures ApplyAll(TRACE, x, TraceRecs(m)) == Outcome(MergeTrace(x, m).(unknown := x.unknown), None)
    ensures AllKnown(TraceKind, TraceRecs(m))
  {
    hide ApplyAll, AllKnown, OptDelim, Repeated;
    var m1 := x.(traceId := Last(x.traceId, m.traceId));
    var m2 := m1.(spanId := Last(x.spanId, m.spanId));
    var m3 := m2.(parentSpanId := Last(x.parentSpanId, m.parentSpanId));
    var m4 := m3.(xRequestId := Last(x.xRequestId, m.xRequestId));
    var m5 := m4.(httpProxyClient := Last(x.httpProxyClient, m.httpProxyClient));
    var r5 := OptDelim(5, m.httpProxyClient) + Repeated(6, m.traceIds);
    var r4 := OptDelim(4, m.xRequestId) + r5;
    var r3 := OptDelim(3, m.parentSpanId) + r4;
    var r2 := OptDelim(2, m.spanId) + r3;
    PeelDelim(TRACE, x, 1, m.traceId, r2, m1);
    PeelDelim(TRACE, m1, 2, m.spanId, r3, m2);
    PeelDelim(TRACE, m2, 3, m.parentSpanId, r4, m3);
    PeelDelim(TRACE, m3, 4, m.xRequestId, r5, m4);
    PeelDelim(TRACE, m4, 5, m.httpProxyClient, Repeated(6, m.traceIds), m5);
    ApplyTraceIds(m5, m.traceIds);
    RepeatedKnown(TraceKind, 6, m.traceIds);
  }

  lemma TraceMerges(x: TraceMsg, m: TraceMsg)
    requires TraceWf(m) && |EncTrace(m)| <= MAX_INT
    ensures Decode(TRACE, x, EncTrace(m)) == Outcome(MergeTrace(x, m), None)
  {
    hide EncRecs, Decode, ApplyAll, AllKnown, Keeps, TraceRecs;
    TraceApply(x, m);
    TraceKeeps();
    DecodeWritten(TRACE, x, TraceRecs(m), MergeTrace(x, m).(unknown := x.unknown), m.unknown);
  }

  lemma TraceRoundTrip(m: TraceMsg)
    requires TraceWf(m) && |EncTrace(m)| <= MAX_INT
    ensures Decode(TRACE, NO_TRACE, EncTrace(m)) == Outcome(m, None)
  {
    hide Decode, EncTrace;
    TraceMerges(NO_TRACE, m);
    assert [] + m.unknown == m.unknown; assert [] + m.traceIds == m.traceIds;
  }

  lemma KeyValKeeps()
    ensures Keeps(KEYVAL)
  {
    forall m: KeyValMsg, u: bytes, v: bytes
      ensures KEYVAL.keep(m, []) == m && KEYVAL.keep(KEYVAL.keep(m, u), v) == KEYVAL.keep(m, u + v)
    {
      assert m.unknown + [] == m.unknown;
      assert m.unknown + u + v == m.unknown + (u + v);
    }
  }

  lemma KeyValApply(x: KeyValMsg, m: KeyValMsg)
    ensures ApplyAll(KEYVAL, x, KeyValRecs(m)) == Outcome(MergeKeyVal(x, m).(unknown := x.unknown), None)
    ensures AllKnown(KeyValKind, KeyValRecs(m))
  {
    hide ApplyAll, AllKnown, OptDelim, OptVarint;
    var m1 := x.(key := LastNonEmpty(x.key, m.key));
    var m2 := m1.(val := LastNonEmpty(x.val, m.val));
    var r2: seq<Rec> := OptDelim(2, NonEmpty(m.val)) + [];
    PeelDelim(KEYVAL, x, 1, NonEmpty(m.key), r2, m1);
    PeelDelim(KEYVAL, m1, 2, NonEmpty(m.val), [], m2);
    ApplyNone(KEYVAL, m2);
  }

  lemma KeyValMerges(x: KeyValMsg, m: KeyValMsg)
    requires KeyValWf(m) && |EncKeyVal(m)| <= MAX_INT
    ensures Decode(KEYVAL, x, EncKeyVal(m)) == Outcome(MergeKeyVal(x, m), None)
  {
    hide EncRecs, Decode, ApplyAll, AllKnown, Keeps, KeyValRecs;
    KeyValApply(x, m);
    KeyValKeeps();
    DecodeWritten(KEYVAL, x, KeyValRecs(m), MergeKeyVal(x, m).(unknown := x.unknown), m.unknown);
  }

  lemma KeyValRoundTrip(m: KeyValMsg)
    requires KeyValWf(m) && |EncKeyVal(m)| <= MAX_INT
    ensures Decode(KEYVAL, NO_KEYVAL, EncKeyVal(m)) == Outcome(m, None)
  {
    hide Decode, EncKeyVal;
    KeyValMerges(NO_KEYVAL, m);
    assert [] + m.unknown == m.unknown;
  }

  lemma NatsKeeps()
    ensures Keeps(NATS)
  {
    forall m: NatsMsg, u: bytes, v: bytes
      ensures NATS.keep(m, []) == m && NATS.keep(NATS.keep(m, u), v) == NATS.keep(m, u + v)
    {
      assert m.unknown + [] == m.unknown;
      assert m.unknown + u + v == m.unknown + (u + v);
    }
  }

  lemma NatsApply(x: NatsMsg, m: NatsMsg)
    ensures ApplyAll(NATS, x, NatsRecs(m)) == Outcome(MergeNats(x, m).(unknown := x.unknown), None)
    ensures AllKnown(NatsKind, NatsRecs(m))
  {
    hide ApplyAll, AllKnown, OptDelim, OptVarint;
    var m1 := x.(subject := LastNonEmpty(x.subject, m.subject));
    var m2 := m1.(replyTo := LastNonEmpty(x.replyTo, m.replyTo));
    var m3 := m2.(payload := LastNonEmpty(x.payload, m.payload));
    var r3: seq<Rec> := OptDelim(3, NonEmpty(m.payload)) + [];
    var r2 := OptDelim(2, NonEmpty(m.replyTo)) + r3;
    PeelDelim(NATS, x, 1, NonEmpty(m.subject), r2, m1);
    PeelDelim(NATS, m1, 2, NonEmpty(m.replyTo), r3, m2);
    PeelDelim(NATS, m2, 3, NonEmpty(m.payload), [], m3);
    ApplyNone(NATS, m3);
  }

  lemma NatsMerges(x: NatsMsg, m: NatsMsg)
    requires NatsWf(m) && |EncNats(m)| <= MAX_INT
    ensures Decode(NATS, x, EncNats(m)) == Outcome(MergeNats(x, m), None)
  {
    hide EncRecs, Decode, ApplyAll, AllKnown, Keeps, NatsRecs;
    NatsApply(x, m);
    NatsKeeps();
    DecodeWritten(NATS, x, NatsRecs(m), MergeNats(x, m).(unknown := x.unknown), m.unknown);
  }

  lemma NatsRoundTrip(m: NatsMsg)
    requires NatsWf(m) && |EncNats(m)| <= MAX_INT
    ensures Decode(NATS, NO_NATS, EncNats(m)) == Outcome(m, None)
  {
    hide Decode, EncNats;
    NatsMerges(NO_NATS, m);
    assert [] + m.unknown == m.unknown;
  }

  // ---------------------------------------------------------------------------------------
  // AppInfo
  // ---------------------------------------------------------------------------------------

  ghost predicate InfoWf(m: InfoMsg) {
    && Unknown(InfoKind, m.unknown)
    && (m.arm.ReqArm? ==> RequestWf(m.arm.req))
    && (m.arm.RespArm? ==> ResponseWf(m.arm.resp))
    && (m.trace.Some? ==> TraceWf(m.trace.value))
    && (forall kv :: kv in m.attributes ==> KeyValWf(kv))
  }

  lemma InfoKeeps()
    ensures Keeps(INFO)
  {
    forall m: InfoMsg, u: bytes, v: bytes
      ensures INFO.keep(m, []) == m && INFO.keep(INFO.keep(m, u), v) == INFO.keep(m, u + v)
    {
      assert m.unknown + [] == m.unknown;
      assert m.unknown + u + v == m.unknown + (u + v);
    }
  }

  /** When an encoding fits an `int`, so do the ones inside it. */
  lemma InfoPartSizes(m: InfoMsg)
    requires |EncRecs(InfoRecs(m))| <= MAX_INT
    ensures m.trace.Some? ==> |EncTrace(m.trace.value)| <= MAX_INT
    ensures m.arm.ReqArm? ==> |EncRequest(m.arm.req)| <= MAX_INT
    ensures m.arm.RespArm? ==> |EncResponse(m.arm.resp)| <= MAX_INT
    ensures forall kv :: kv in m.attributes ==> |EncKeyVal(kv)| <= MAX_INT
  {
    hide EncRecs, EncTrace, EncRequest, EncResponse, EncKeyVal;
    var rs := InfoRecs(m);
    if m.trace.Some? { EncRecsMember(rs, DelimRec(12, EncTrace(m.trace.value))); }
    match m.arm {
      case NoArm =>
      case ReqArm(req) => EncRecsMember(rs, DelimRec(10, EncRequest(req)));
      case RespArm(resp) => EncRecsMember(rs, DelimRec(11, EncResponse(resp)));
    }
    forall kv | kv in m.attributes ensures |EncKeyVal(kv)| <= MAX_INT {
      AttributeRec(m.attributes, kv);
      EncRecsMember(rs, DelimRec(31, EncKeyVal(kv)));
    }
  }

  lemma {:induction false} AttributeRec(kvs: seq<KeyValMsg>, kv: KeyValMsg)
    requires kv in kvs
    ensures DelimRec(31, EncKeyVal(kv)) in Repeated(31, EncKeyVals(kvs))
  {
    hide EncKeyVal;
    if kv != kvs[0] { AttributeRec(kvs[1..], kv); }
  }

  function WithLengths(x: InfoMsg, m: InfoMsg): InfoMsg {
    x.(reqLen := Last(x.reqLen, m.reqLen), respLen := Last(x.respLen, m.respLen),
       requestId := Last(x.requestId, m.requestId))
  }

  lemma LengthApply(x: InfoMsg, m: InfoMsg)
    ensures ApplyAll(INFO, x, LengthRecs(m)) == Outcome(WithLengths(x, m), None)
    ensures AllKnown(InfoKind, LengthRecs(m))
  {
    hide ApplyAll, AllKnown, OptVarint, Truncate;
    var m1 := x.(reqLen := Last(x.reqLen, m.reqLen));
    var m2 := m1.(respLen := Last(x.respLen, m.respLen));
    var m3 := m2.(requestId := Last(x.requestId, m.requestId));
    var r3: seq<Rec> := OptVarint(3, RawU32(m.requestId)) + [];
    var r2 := OptVarint(2, RawU32(m.respLen)) + r3;
    PeelVarint(INFO, x, 1, RawU32(m.reqLen), r2, m1);
    PeelVarint(INFO, m1, 2, RawU32(m.respLen), r3, m2);
    PeelVarint(INFO, m2, 3, RawU32(m.requestId), [], m3);
    ApplyNone(INFO, m3);
  }

  function WithTrace(x: InfoMsg, m: InfoMsg): InfoMsg {
    x.(trace := MergeTraces(x.trace, m.trace), protocolStr := Last(x.protocolStr, m.protocolStr))
  }

  lemma TraceAndProtocolApply(x: InfoMsg, m: InfoMsg)
    requires m.trace.Some? ==> TraceWf(m.trace.value) && |EncTrace(m.trace.value)| <= MAX_INT
    ensures ApplyAll(INFO, x, TraceAndProtocolRecs(m)) == Outcome(WithTrace(x, m), None)
    ensures AllKnown(InfoKind, TraceAndProtocolRecs(m))
  {
    hide ApplyAll, AllKnown, OptDelim, Decode, EncTrace, MergeTrace;
    var m1 := x.(trace := MergeTraces(x.trace, m.trace));
    var m2 := m1.(protocolStr := Last(x.protocolStr, m.protocolStr));
    var r2: seq<Rec> := OptDelim(13, m.protocolStr) + [];
    if m.trace.Some? {
      TraceRoundTrip(m.trace.value);
      if x.trace.Some? { TraceMerges(x.trace.value, m.trace.value); }
    }
    PeelDelim(INFO, x, 12, EncTraceOpt(m.trace), r2, m1);
    PeelDelim(INFO, m1, 13, m.protocolStr, [], m2);
    ApplyNone(INFO, m2);
  }

  function WithFlags(x: InfoMsg, m: InfoMsg): InfoMsg {
    x.(isEnd := Last(x.isEnd, m.isEnd), isAsync := Last(x.isAsync, m.isAsync),
       isReversed := Last(x.isReversed, m.isReversed))
  }

  lemma FlagApply(x: InfoMsg, m: InfoMsg)
    ensures ApplyAll(INFO, x, FlagRecs(m)) == Outcome(WithFlags(x, m), None)
    ensures AllKnown(InfoKind, FlagRecs(m))
  {
    hide ApplyAll, AllKnown, OptVarint, Truncate;
    var m1 := x.(isEnd := Last(x.isEnd, m.isEnd));
    var m2 := m1.(isAsync := Last(x.isAsync, m.isAsync));
    var m3 := m2.(isReversed := Last(x.isReversed, m.isReversed));
    var r3: seq<Rec> := OptVarint(23, RawBool(m.isReversed)) + [];
    var r2 := OptVarint(22, RawBool(m.isAsync)) + r3;
    PeelVarint(INFO, x, 21, RawBool(m.isEnd), r2, m1);
    PeelVarint(INFO, m1, 22, RawBool(m.isAsync), r3, m2);
    PeelVarint(INFO, m2, 23, RawBool(m.isReversed), [], m3);
    ApplyNone(INFO, m3);
  }

  lemma {:induction false} AttributesApply(x: InfoMsg, kvs: seq<KeyValMsg>)
    requires forall kv :: kv in kvs ==> KeyValWf(kv) && |EncKeyVal(kv)| <= MAX_INT
    ensures ApplyAll(INFO, x, Repeated(31, EncKeyVals(kvs)))
         == Outcome(x.(attributes := x.attributes + kvs), None)
    decreases kvs
  {
    hide Decode, EncKeyVal, KeyValWf, ApplyAll, DecodeReq, DecodeResp, DecodeTrace;
    if kvs == [] {
      ApplyNone(INFO, x);
      assert x.attributes + [] == x.attributes;
    } else {
      KeyValRoundTrip(kvs[0]);
      var next := x.(attributes := x.attributes + [kvs[0]]);
      var first := Some(EncKeyVal(kvs[0]));
      assert Repeated(31, EncKeyVals(kvs)) == OptDelim(31, first) + Repeated(31, EncKeyVals(kvs[1..]));
      PeelDelim(INFO, x, 31, first, Repeated(31, EncKeyVals(kvs[1..])), next);
      AttributesApply(next, kvs[1..]);
      assert x.attributes + [kvs[0]] + kvs[1..] == x.attributes + kvs;
    }
  }

  function WithAttributes(x: InfoMsg, m: InfoMsg): InfoMsg {
    x.(attributes := x.attributes + m.attributes)
  }

  function WithBiz(x: InfoMsg, m: InfoMsg): InfoMsg {
    x.(bizType := Last(x.bizType, m.bizType), bizCode := Last(x.bizCode, m.bizCode),
       bizScenario := Last(x.bizScenario, m.bizScenario),
       bizResponseCode := Last(x.bizResponseCode, m.bizResponseCode))
  }

  lemma BizApply(x: InfoMsg, m: InfoMsg)
    ensures ApplyAll(INFO, x, BizRecs(m)) == Outcome(WithBiz(x, m), None)
    ensures AllKnown(InfoKind, BizRecs(m))
  {
    hide DecodeReq, DecodeResp, DecodeTrace, DecodeAttribute;
    hide ApplyAll, AllKnown, OptDelim, OptVarint, Truncate;
    var m1 := x.(bizType := Last(x.bizType, m.bizType));
    var m2 := m1.(bizCode := Last(x.bizCode, m.bizCode));
    var m3 := m2.(bizScenario := Last(x.bizScenario, m.bizScenario));
    var m4 := m3.(bizResponseCode := Last(x.bizResponseCode, m.bizResponseCode));
    var r4: seq<Rec> := OptDelim(35, m.bizResponseCode) + [];
    var r3 := OptDelim(34, m.bizScenario) + r4;
    var r2 := OptDelim(33, m.bizCode) + r3;
    PeelVarint(INFO, x, 32, RawU32(m.bizType), r2, m1);
    PeelDelim(INFO, m1, 33, m.bizCode, r3, m2);
    PeelDelim(INFO, m2, 34, m.bizScenario, r4, m3);
    PeelDelim(INFO, m3, 35, m.bizResponseCode, [], m4);
    ApplyNone(INFO, m4);
  }

  lemma ArmApply(x: InfoMsg, a: Arm)
    requires a.ReqArm? ==> RequestWf(a.req) && |EncRequest(a.req)| <= MAX_INT
    requires a.RespArm? ==> ResponseWf(a.resp) && |EncResponse(a.resp)| <= MAX_INT
    ensures ApplyAll(INFO, x, ArmRecs(a)) == Outcome(x.(arm := MergeArm(x.arm, a)), None)
    ensures AllKnown(InfoKind, ArmRecs(a))
  {
    hide Decode, EncRequest, EncResponse, MergeRequest, MergeResponse;
    match a
    case NoArm =>
    case ReqArm(req) =>
      RequestRoundTrip(req);
      if x.arm.ReqArm? { RequestMerges(x.arm.req, req); }
    case RespArm(resp) =>
      ResponseRoundTrip(resp);
      if x.arm.RespArm? { ResponseMerges(x.arm.resp, resp); }
  }

  function With12(x: InfoMsg, m: InfoMsg): InfoMsg {
    WithBiz(WithAttributes(WithFlags(WithTrace(x, m), m), m), m)
  }

  lemma From12Apply(x: InfoMsg, m: InfoMsg)
    requires InfoWf(m) && |EncRecs(InfoRecs(m))| <= MAX_INT
    ensures ApplyAll(INFO, x, RecsFrom12(m)) == Outcome(With12(x, m), None)
    ensures AllKnown(InfoKind, RecsFrom12(m))
  {
    hide ApplyAll, AllKnown, EncRecs, TraceAndProtocolRecs, FlagRecs, BizRecs, EncKeyVals;
    hide KeyValWf, TraceWf, Unknown, WithTrace, WithFlags, WithBiz;
    InfoPartSizes(m);
    var m1 := WithTrace(x, m);
    var m2 := WithFlags(m1, m);
    var m3 := WithAttributes(m2, m);
    TraceAndProtocolApply(x, m);
    FlagApply(m1, m);
    AttributesApply(m2, m.attributes);
    RepeatedKnown(InfoKind, 31, EncKeyVals(m.attributes));
    BizApply(m3, m);
    ApplyBoth(INFO, m2, AttributeRecs(m), BizRecs(m), m3);
    ApplyBoth(INFO, m1, FlagRecs(m), AttributeRecs(m) + BizRecs(m), m2);
    ApplyBoth(INFO, x, TraceAndProtocolRecs(m), FlagRecs(m) + (AttributeRecs(m) + BizRecs(m)), m1);
  }

  /** Both orders of the records build up the same message. */
  lemma InfoApply(x: InfoMsg, m: InfoMsg)
    requires InfoWf(m) && |EncRecs(InfoRecs(m))| <= MAX_INT
    ensures ApplyAll(INFO, x, InfoRecs(m)) == Outcome(MergeInfo(x, m).(unknown := x.unknown), None)
    ensures ApplyAll(INFO, x, StrictRecs(m)) == Outcome(MergeInfo(x, m).(unknown := x.unknown), None)
    ensures AllKnown(InfoKind, InfoRecs(m)) && AllKnown(InfoKind, StrictRecs(m))
  {
    hide ApplyAll, AllKnown, EncRecs, LengthRecs, ArmRecs, RecsFrom12, MergeArm, MergeTraces;
    InfoPartSizes(m);
    LengthApply(x, m);
    var low := WithLengths(x, m);
    var armed := low.(arm := MergeArm(x.arm, m.arm));
    From12Apply(low, m);
    From12Apply(armed, m);
    ArmApply(With12(low, m), m.arm);
    ArmApply(low, m.arm);
    ApplyBoth(INFO, low, RecsFrom12(m), ArmRecs(m.arm), With12(low, m));
    ApplyBoth(INFO, low, ArmRecs(m.arm), RecsFrom12(m), armed);
    ApplyBoth(INFO, x, LengthRecs(m), RecsFrom12(m) + ArmRecs(m.arm), low);
    ApplyBoth(INFO, x, LengthRecs(m), ArmRecs(m.arm) + RecsFrom12(m), low);
  }

  /** The strict writer writes the same records, so the same number of bytes. */
  lemma StrictIsPermutation(m: InfoMsg)
    ensures multiset(StrictRecs(m)) == multiset(InfoRecs(m))
    ensures |EncInfoStrict(m)| == |EncInfo(m)|
  {
    hide EncRecs, LengthRecs, ArmRecs, RecsFrom12;
    var a, b, c := LengthRecs(m), RecsFrom12(m), ArmRecs(m.arm);
    EncRecsConcat(a, b + c);
    EncRecsConcat(b, c);
    EncRecsConcat(a, c + b);
    EncRecsConcat(c, b);
    assert multiset(a + (b + c)) == multiset(a) + multiset(b) + multiset(c);
    assert multiset(a + (c + b)) == multiset(a) + multiset(c) + multiset(b);
  }

  /** Decoding what either writer produced for m into x merges m into x. */
  lemma InfoMerges(x: InfoMsg, m: InfoMsg)
    requires InfoWf(m) && |EncInfo(m)| <= MAX_INT
    ensures Decode(INFO, x, EncInfo(m)) == Outcome(MergeInfo(x, m), None)
    ensures Decode(INFO, x, EncInfoStrict(m)) == Outcome(MergeInfo(x, m), None)
  {
    hide EncRecs, Decode, ApplyAll, AllKnown, Keeps, InfoRecs, StrictRecs;
    InfoApply(x, m);
    InfoKeeps();
    StrictIsPermutation(m);
    var known := MergeInfo(x, m).(unknown := x.unknown);
    DecodeWritten(INFO, x, InfoRecs(m), known, m.unknown);
    DecodeWritten(INFO, x, StrictRecs(m), known, m.unknown);
  }

  /** Full round trip: what either writer produces decodes to the message it was given, for
      every well-formed message whose encoding fits a byte slice at all. */
  lemma InfoRoundTrip(m: InfoMsg)
    requires InfoWf(m) && |EncInfo(m)| <= MAX_INT
    ensures Decode(INFO, NO_INFO, EncInfo(m)) == Outcome(m, None)
    ensures Decode(INFO, NO_INFO, EncInfoStrict(m)) == Outcome(m, None)
  {
    hide Decode, EncInfo, EncInfoStrict;
    InfoMerges(NO_INFO, m);
    assert [] + m.unknown == m.unknown && [] + m.attributes == m.attributes;
  }

  /** Concatenation is merge: whatever was decoded first, appending what either writer
      produced for m merges m into it. */
  lemma ConcatIsMerge(x: InfoMsg, a: bytes, m: InfoMsg)
    requires InfoWf(m) && |EncInfo(m)| <= MAX_INT
    ensures Decode(INFO, x, a).err == None ==>
              var merged := MergeInfo(Decode(INFO, x, a).msg, m);
              Decode(INFO, x, a + EncInfo(m)) == Decode(INFO, x, a + EncInfoStrict(m)) == Outcome(merged, None)
  {
    hide Decode, EncInfo, EncInfoStrict, MergeInfo;
    InfoMerges(Decode(INFO, x, a).msg, m);
    if Decode(INFO, x, a).err == None {
      DecodeConcat(INFO, x, a, EncInfo(m));
      DecodeConcat(INFO, x, a, EncInfoStrict(m));
    }
  }

  // ---------------------------------------------------------------------------------------
  // Well-formedness of what is decoded, and canonicity
  // ---------------------------------------------------------------------------------------

  lemma RequestDecodeWf(m: RequestMsg, b: bytes)
    requires RequestWf(m)
    ensures RequestWf(Decode(REQUEST, m, b).msg)
  {
    forall x, r | RequestWf(x) && Sound(REQUEST.kindOf, r) ensures RequestWf(Apply(REQUEST, x, r).msg) {
      if r.RawRec? {
        UnknownSingle(RequestKind, r);
        UnknownConcat(RequestKind, x.unknown, r.data);
      }
    }
    DecodePreserves(REQUEST, RequestWf, m, b);
  }

  lemma ResponseDecodeWf(m: ResponseMsg, b: bytes)
    requires ResponseWf(m)
    ensures ResponseWf(Decode(RESPONSE, m, b).msg)
  {
    forall x, r | ResponseWf(x) && Sound(RESPONSE.kindOf, r) ensures ResponseWf(Apply(RESPONSE, x, r).msg) {
      if r.RawRec? {
        UnknownSingle(ResponseKind, r);
        UnknownConcat(ResponseKind, x.unknown, r.data);
      }
    }
    DecodePreserves(RESPONSE, ResponseWf, m, b);
  }

  lemma TraceDecodeWf(m: TraceMsg, b: bytes)
    requires TraceWf(m)
    ensures TraceWf(Decode(TRACE, m, b).msg)
  {
    forall x, r | TraceWf(x) && Sound(TRACE.kindOf, r) ensures TraceWf(Apply(TRACE, x, r).msg) {
      if r.RawRec? {
        UnknownSingle(TraceKind, r);
        UnknownConcat(TraceKind, x.unknown, r.data);
      }
    }
    DecodePreserves(TRACE, TraceWf, m, b);
  }

  lemma KeyValDecodeWf(m: KeyValMsg, b: bytes)
    requires KeyValWf(m)
    ensures KeyValWf(Decode(KEYVAL, m, b).msg)
  {
    forall x, r | KeyValWf(x) && Sound(KEYVAL.kindOf, r) ensures KeyValWf(Apply(KEYVAL, x, r).msg) {
      if r.RawRec? {
        UnknownSingle(KeyValKind, r);
        UnknownConcat(KeyValKind, x.unknown, r.data);
      }
    }
    DecodePreserves(KEYVAL, KeyValWf, m, b);
  }

  lemma NatsDecodeWf(m: NatsMsg, b: bytes)
    requires NatsWf(m)
    ensures NatsWf(Decode(NATS, m, b).msg)
  {
    forall x, r | NatsWf(x) && Sound(NATS.kindOf, r) ensures NatsWf(Apply(NATS, x, r).msg) {
      if r.RawRec? {
        UnknownSingle(NatsKind, r);
        UnknownConcat(NatsKind, x.unknown, r.data);
      }
    }
    DecodePreserves(NATS, NatsWf, m, b);
  }

  lemma InfoStepWf(x: InfoMsg, r: Rec)
    requires InfoWf(x) && Sound(InfoKind, r)
    ensures InfoWf(Apply(INFO, x, r).msg)
  {
    hide Decode, Unknown, RequestWf, ResponseWf, TraceWf, KeyValWf, Sound;
    match r
    case VarintRec(_, _) =>
    case RawRec(data) =>
      UnknownSingle(InfoKind, r);
      UnknownConcat(InfoKind, x.unknown, data);
    case DelimRec(_, d) =>
      EmptyWf();
      RequestDecodeWf(if x.arm.ReqArm? then x.arm.req else NO_REQUEST, d);
      ResponseDecodeWf(if x.arm.RespArm? then x.arm.resp else NO_RESPONSE, d);
      TraceDecodeWf(if x.trace.Some? then x.trace.value else NO_TRACE, d);
      KeyValDecodeWf(NO_KEYVAL, d);
  }

  lemma EmptyWf()
    ensures RequestWf(NO_REQUEST) && ResponseWf(NO_RESPONSE) && TraceWf(NO_TRACE) && KeyValWf(NO_KEYVAL)
    ensures NatsWf(NO_NATS) && InfoWf(NO_INFO)
  {
  }

  lemma InfoDecodeWf(m: InfoMsg, b: bytes)
    requires InfoWf(m)
    ensures InfoWf(Decode(INFO, m, b).msg)
  {
    hide Decode, Apply, InfoWf, Sound;
    forall x, r | InfoWf(x) && Sound(INFO.kindOf, r) ensures InfoWf(Apply(INFO, x, r).msg) {
      InfoStepWf(x, r);
    }
    DecodePreserves(INFO, InfoWf, m, b);
  }

  /** Canonicity: equal bytes mean equal messages, and the other way around. */
  lemma Canonicity(a: InfoMsg, b: InfoMsg)
    requires InfoWf(a) && InfoWf(b) && |EncInfo(a)| <= MAX_INT
    ensures EncInfo(a) == EncInfo(b) <==> a == b
    ensures EncInfoStrict(a) == EncInfoStrict(b) <==> a == b
  {
    hide Decode, EncInfo, EncInfoStrict, InfoRecs, StrictRecs, InfoWf;
    InfoRoundTrip(a);
    assert |EncInfoStrict(a)| == |EncInfo(a)| && |EncInfoStrict(b)| == |EncInfo(b)| by {
      StrictIsPermutation(a);
      StrictIsPermutation(b);
    }
    if |EncInfo(b)| <= MAX_INT { InfoRoundTrip(b); }
  }
}
