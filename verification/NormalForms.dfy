/**
 Every input has a normal form: what it decodes to, written again. It is no longer than the
 input, but for the int32 fields of a response, which the writer sign-extends to ten bytes
 where an input may have spelled them with five.
 */
module NormalForms {
  import opened Machine
  import opened Varint
  import opened Wire
  import opened Codec
  import opened Messages
  import opened RoundTrip
  import opened Buffers
  import opened Sizes

  // ---------------------------------------------------------------------------------------
  // Records
  // ---------------------------------------------------------------------------------------

  lemma {:induction false} VarintMonotone(x: nat, y: nat)
    requires x <= y
    ensures |EncVarint(x)| <= |EncVarint(y)|
    decreases y
  {
    if x >= 128 { VarintMonotone(x / 128, y / 128); }
  }

  lemma VarintSum(x: nat, y: nat)
    ensures |EncVarint(x + y)| <= |EncVarint(x)| + |EncVarint(y)|
  {
    var m := if x < y then y else x;
    VarintMonotone(x + y, 2 * m);
    if m > 0 {
      VarintMonotone(2 * m, 128 * m);
      assert 128 * m / 128 == m && |EncVarint(128 * m)| == 1 + |EncVarint(m)|;
    }
  }

  /** A varint is read from no fewer bytes than it is written with. */
  lemma {:induction false} ReadNoShorter(b: bytes, k: nat)
    requires ReadVarint(b, k).Ok?
    ensures |EncVarint(ReadVarint(b, k).value)| <= ReadVarint(b, k).n
    decreases |b|
  {
    if b[0] >= 128 {
      ReadNoShorter(b[1..], k + 1);
      var v := ReadVarint(b, k).value;
      assert v / 128 == ReadVarint(b[1..], k + 1).value;
    }
  }

  lemma TagNoShorter(b: bytes)
    requires ReadTag(b).Ok?
    ensures var t := ReadTag(b).value; t.num > 0 && |EncVarint(8 * t.num + t.wireType)| <= ReadTag(b).n
  {
    hide EncVarint, ReadVarint;
    var raw := ReadVarint(b, 0).value;
    var wire := Truncate(raw, Bits64);
    var t := ReadTag(b).value;
    ReadNoShorter(b, 0);
    LowBits(raw);
    assert t.num <= wire / 8 && 8 * t.num + t.wireType <= wire;
    VarintMonotone(8 * t.num + t.wireType, raw);
  }

  lemma LowBits(raw: nat)
    ensures Truncate(raw, Bits32) <= raw && Truncate(raw, Bits64) <= raw
    ensures ToInt(raw) <= raw && ToI32(raw) <= raw
    ensures ToI32(raw) < 0 ==> raw > 0x7FFF_FFFF
  {
  }

  /** Nor is any record. */
  lemma RecNoShorter(kindOf: int -> Kind, b: bytes)
    requires ReadRec(kindOf, b).Ok?
    ensures |EncRec(ReadRec(kindOf, b).value)| <= ReadRec(kindOf, b).n
  {
    hide EncVarint, ReadVarint, ReadTag, ReadUnknown, ToInt;
    var n := ReadTag(b).n;
    TagNoShorter(b);
    match kindOf(ReadTag(b).value.num)
    case VarintKind =>
      var num: nat := ReadTag(b).value.num;
      ReadNoShorter(b[n..], 0);
      ZeroWireType(num);
    case DelimKind =>
      var raw := ReadVarint(b[n..], 0).value;
      ReadNoShorter(b[n..], 0);
      LowBits(raw);
      VarintMonotone(ToInt(raw), raw);
    case UnknownKind => UnknownSize(b);
  }

  lemma ZeroWireType(num: nat)
    ensures EncVarint(8 * num + 0) == EncVarint(8 * num)
  {
  }

  lemma UnknownSize(b: bytes)
    requires ReadUnknown(b).Ok?
    ensures |ReadUnknown(b).value| == ReadUnknown(b).n
  {
  }

  /** A size that no record outgrows, no run outgrows. */
  lemma {:induction false} DecodeSize<M(!new)>(s: Schema<M>, size: M -> nat, m: M, b: bytes)
    requires forall x, r :: Sound(s.kindOf, r) ==> size(Apply(s, x, r).msg) <= size(x) + |EncRec(r)|
    ensures size(Decode(s, m, b).msg) <= size(m) + |b|
    decreases |b|
  {
    hide ReadRec, Apply, EncRec, Sound;
    if b != [] && ReadRec(s.kindOf, b).Ok? {
      var r, n := ReadRec(s.kindOf, b).value, ReadRec(s.kindOf, b).n;
      DecodeStep(s, m, b);
      ReadRecSound(s.kindOf, b);
      RecNoShorter(s.kindOf, b);
      DecodeSize(s, size, Apply(s, m, r).msg, b[n..]);
    }
  }

  // The size of one record by its field number.

  lemma FieldSize(num: nat, d: bytes)
    requires 0 < num < 2048
    ensures |EncRec(DelimRec(num, d))| == DelimSize(if num < 16 then 1 else 2, Some(d))
  {
    hide EncVarint, SizeOfVarint;
    TagLength(num, 2);
    SizeOfVarintExact(|d|);
  }

  lemma NumberSize(num: nat, raw: nat, v: nat)
    requires 0 < num < 2048 && v <= raw
    ensures |EncRec(VarintRec(num, raw))| >= VarintSize(if num < 16 then 1 else 2, Some(v))
  {
    hide EncVarint, SizeOfVarint;
    TagLength(num, 0);
    SizeOfVarintExact(v);
    VarintMonotone(v, raw);
  }

  // ---------------------------------------------------------------------------------------
  // Leaf messages
  // ---------------------------------------------------------------------------------------

  lemma RequestSize(m: RequestMsg)
    ensures |EncRequest(m)|
         == DelimSize(1, m.version) + DelimSize(1, m.type_) + DelimSize(1, m.domain)
            + DelimSize(1, m.resource) + DelimSize(1, m.endpoint) + |m.unknown|
  {
    hide EncRecs, OptDelim, DelimSize;
    var r5: seq<Rec> := OptDelim(5, m.endpoint) + [];
    var r4 := OptDelim(4, m.resource) + r5;
    var r3 := OptDelim(3, m.domain) + r4;
    var r2 := OptDelim(2, m.type_) + r3;
    DelimSizeExact(5, m.endpoint, []);
    DelimSizeExact(4, m.resource, r5);
    DelimSizeExact(3, m.domain, r4);
    DelimSizeExact(2, m.type_, r3);
    DelimSizeExact(1, m.version, r2);
    NoRecs();
  }

  lemma RequestStepSize(x: RequestMsg, r: Rec)
    requires Sound(RequestKind, r)
    ensures |EncRequest(Apply(REQUEST, x, r).msg)| <= |EncRequest(x)| + |EncRec(r)|
  {
    hide EncRequest, EncRec, DelimSize, ReadRec;
    RequestSize(x);
    RequestSize(Apply(REQUEST, x, r).msg);
    if r.DelimRec? { FieldSize(r.num, r.data); }
    if r.RawRec? { RawSize(r.data); }
  }

  lemma RawSize(data: bytes)
    ensures |EncRec(RawRec(data))| == |data|
  {
  }

  lemma RequestGrowth(x: RequestMsg, d: bytes)
    ensures |EncRequest(Decode(REQUEST, x, d).msg)| <= |EncRequest(x)| + |d|
  {
    hide EncRequest, EncRec, Decode, Apply, Sound;
    forall y, r | Sound(REQUEST.kindOf, r)
      ensures |EncRequest(Apply(REQUEST, y, r).msg)| <= |EncRequest(y)| + |EncRec(r)| {
      RequestStepSize(y, r);
    }
    DecodeSize(REQUEST, y => |EncRequest(y)|, x, d);
  }

  lemma {:induction false} TraceIdsSize(ids: seq<bytes>, d: bytes)
    ensures |EncRecs(Repeated(6, ids + [d]))| == |EncRecs(Repeated(6, ids))| + DelimSize(1, Some(d))
  {
    hide EncRecs, Repeated, DelimSize;
    var all := ids + [d];
    RepeatedBack(6, all, |ids|);
    assert all[..|ids|] == ids && all[..|ids| + 1] == all;
  }

  lemma TraceSize(m: TraceMsg)
    ensures |EncTrace(m)|
         == DelimSize(1, m.traceId) + DelimSize(1, m.spanId) + DelimSize(1, m.parentSpanId)
            + DelimSize(1, m.xRequestId) + DelimSize(1, m.httpProxyClient)
            + |EncRecs(Repeated(6, m.traceIds))| + |m.unknown|
  {
    hide EncRecs, OptDelim, DelimSize, Repeated;
    var r5 := OptDelim(5, m.httpProxyClient) + Repeated(6, m.traceIds);
    var r4 := OptDelim(4, m.xRequestId) + r5;
    var r3 := OptDelim(3, m.parentSpanId) + r4;
    var r2 := OptDelim(2, m.spanId) + r3;
    DelimSizeExact(5, m.httpProxyClient, Repeated(6, m.traceIds));
    DelimSizeExact(4, m.xRequestId, r5);
    DelimSizeExact(3, m.parentSpanId, r4);
    DelimSizeExact(2, m.spanId, r3);
    DelimSizeExact(1, m.traceId, r2);
  }

  lemma TraceStepSize(x: TraceMsg, r: Rec)
    requires Sound(TraceKind, r)
    ensures |EncTrace(Apply(TRACE, x, r).msg)| <= |EncTrace(x)| + |EncRec(r)|
  {
    hide EncTrace, EncRec, EncRecs, DelimSize, Repeated, ReadRec;
    TraceSize(x);
    TraceSize(Apply(TRACE, x, r).msg);
    if r.DelimRec? { FieldSize(r.num, r.data); TraceIdsSize(x.traceIds, r.data); }
    if r.RawRec? { RawSize(r.data); }
  }

  lemma TraceGrowth(x: TraceMsg, d: bytes)
    ensures |EncTrace(Decode(TRACE, x, d).msg)| <= |EncTrace(x)| + |d|
  {
    hide EncTrace, EncRec, Decode, Apply, Sound;
    forall y, r | Sound(TRACE.kindOf, r)
      ensures |EncTrace(Apply(TRACE, y, r).msg)| <= |EncTrace(y)| + |EncRec(r)| {
      TraceStepSize(y, r);
    }
    DecodeSize(TRACE, y => |EncTrace(y)|, x, d);
  }

  lemma KeyValSizes(m: KeyValMsg)
    ensures |EncKeyVal(m)| == DelimSize(1, NonEmpty(m.key)) + DelimSize(1, NonEmpty(m.val)) + |m.unknown|
  {
    hide EncRecs, OptDelim, DelimSize;
    DelimSizeExact(2, NonEmpty(m.val), []);
    DelimSizeExact(1, NonEmpty(m.key), OptDelim(2, NonEmpty(m.val)) + []);
    NoRecs();
  }

  lemma KeyValStepSize(x: KeyValMsg, r: Rec)
    requires Sound(KeyValKind, r)
    ensures |EncKeyVal(Apply(KEYVAL, x, r).msg)| <= |EncKeyVal(x)| + |EncRec(r)|
  {
    hide EncKeyVal, EncRec, SizeOfVarint, ReadRec;
    KeyValSizes(x);
    KeyValSizes(Apply(KEYVAL, x, r).msg);
    if r.DelimRec? { FieldSize(r.num, r.data); }
    if r.RawRec? { RawSize(r.data); }
  }

  lemma KeyValGrowth(x: KeyValMsg, d: bytes)
    ensures |EncKeyVal(Decode(KEYVAL, x, d).msg)| <= |EncKeyVal(x)| + |d|
  {
    hide EncKeyVal, EncRec, Decode, Apply, Sound;
    forall y, r | Sound(KEYVAL.kindOf, r)
      ensures |EncKeyVal(Apply(KEYVAL, y, r).msg)| <= |EncKeyVal(y)| + |EncRec(r)| {
      KeyValStepSize(y, r);
    }
    DecodeSize(KEYVAL, y => |EncKeyVal(y)|, x, d);
  }

  lemma NatsSizes(m: NatsMsg)
    ensures |EncNats(m)|
         == DelimSize(1, NonEmpty(m.subject)) + DelimSize(1, NonEmpty(m.replyTo)) + DelimSize(1, NonEmpty(m.payload))
            + |m.unknown|
  {
    hide EncRecs, OptDelim, DelimSize;
    var r3: seq<Rec> := OptDelim(3, NonEmpty(m.payload)) + [];
    DelimSizeExact(3, NonEmpty(m.payload), []);
    DelimSizeExact(2, NonEmpty(m.replyTo), r3);
    DelimSizeExact(1, NonEmpty(m.subject), OptDelim(2, NonEmpty(m.replyTo)) + r3);
    NoRecs();
  }

  lemma NatsStepSize(x: NatsMsg, r: Rec)
    requires Sound(NatsKind, r)
    ensures |EncNats(Apply(NATS, x, r).msg)| <= |EncNats(x)| + |EncRec(r)|
  {
    hide EncNats, EncRec, SizeOfVarint, ReadRec;
    NatsSizes(x);
    NatsSizes(Apply(NATS, x, r).msg);
    if r.DelimRec? { FieldSize(r.num, r.data); }
    if r.RawRec? { RawSize(r.data); }
  }

  lemma NatsGrowth(x: NatsMsg, d: bytes)
    ensures |EncNats(Decode(NATS, x, d).msg)| <= |EncNats(x)| + |d|
  {
    hide EncNats, EncRec, Decode, Apply, Sound;
    forall y, r | Sound(NATS.kindOf, r)
      ensures |EncNats(Apply(NATS, y, r).msg)| <= |EncNats(y)| + |EncRec(r)| {
      NatsStepSize(y, r);
    }
    DecodeSize(NATS, y => |EncNats(y)|, x, d);
  }

  // ---------------------------------------------------------------------------------------
  // Responses
  // ---------------------------------------------------------------------------------------

  /** A negative number stands for one that is written with five bytes. */
  function Slim32(o: Option<i32>): Option<i32> {
    if o.Some? && o.value < 0 then Some(0x7FFF_FFFF) else o
  }

  function Slim(m: ResponseMsg): ResponseMsg {
    m.(status := Slim32(m.status), code := Slim32(m.code))
  }

  lemma ResponseSize(m: ResponseMsg)
    ensures |EncResponse(m)|
         == VarintSize(1, RawI32(m.status)) + VarintSize(1, RawI32(m.code)) + DelimSize(1, m.exception)
            + DelimSize(1, m.result) + DelimSize(1, m.type_) + DelimSize(1, m.endpoint) + |m.unknown|
  {
    hide EncRecs, OptDelim, OptVarint, DelimSize, VarintSize;
    var r6: seq<Rec> := OptDelim(6, m.endpoint) + [];
    var r5 := OptDelim(5, m.type_) + r6;
    var r4 := OptDelim(4, m.result) + r5;
    var r3 := OptDelim(3, m.exception) + r4;
    var r2 := OptVarint(2, RawI32(m.code)) + r3;
    DelimSizeExact(6, m.endpoint, []);
    DelimSizeExact(5, m.type_, r6);
    DelimSizeExact(4, m.result, r5);
    DelimSizeExact(3, m.exception, r4);
    VarintSizeExact(2, RawI32(m.code), r3);
    VarintSizeExact(1, RawI32(m.status), r2);
    NoRecs();
  }

  lemma SlimNumber(num: nat, raw: nat)
    requires 0 < num < 16
    ensures VarintSize(1, RawI32(Slim32(Some(ToI32(raw))))) <= |EncRec(VarintRec(num, raw))|
  {
    hide EncRec;
    LowBits(raw);
    NumberSize(num, raw, if ToI32(raw) < 0 then 0x7FFF_FFFF else ToI32(raw));
  }

  lemma ResponseStepSize(x: ResponseMsg, r: Rec)
    requires Sound(ResponseKind, r)
    ensures |EncResponse(Slim(Apply(RESPONSE, x, r).msg))| <= |EncResponse(Slim(x))| + |EncRec(r)|
  {
    hide EncResponse, EncRec, DelimSize, VarintSize, ToI32, ReadRec;
    ResponseSize(Slim(x));
    ResponseSize(Slim(Apply(RESPONSE, x, r).msg));
    match r
    case VarintRec(num, raw) => SlimNumber(num, raw);
    case DelimRec(num, d) => FieldSize(num, d);
    case RawRec(data) => RawSize(data);
  }

  lemma ResponseGrowth(x: ResponseMsg, d: bytes)
    ensures |EncResponse(Slim(Decode(RESPONSE, x, d).msg))| <= |EncResponse(Slim(x))| + |d|
  {
    hide EncResponse, Slim, EncRec, Decode, Apply, Sound;
    forall y, r | Sound(RESPONSE.kindOf, r)
      ensures |EncResponse(Slim(Apply(RESPONSE, y, r).msg))| <= |EncResponse(Slim(y))| + |EncRec(r)| {
      ResponseStepSize(y, r);
    }
    DecodeSize(RESPONSE, y => |EncResponse(Slim(y))|, x, d);
  }

  lemma SlimWidth(o: Option<i32>)
    ensures VarintSize(1, RawI32(o)) <= VarintSize(1, RawI32(Slim32(o))) + 5
  {
    hide EncVarint, SizeOfVarint;
    if o.Some? && o.value < 0 {
      ReadEncU64(SignExtend(o.value), []);
      SizeOfVarintExact(SignExtend(o.value));
      SizeOfVarintExact(0x7FFF_FFFF);
      FiveBytes();
    }
  }

  lemma FiveBytes()
    ensures |EncVarint(0x7FFF_FFFF)| == 5
  {
    assert 0x7FFF_FFFF / 128 == 0xFF_FFFF && 0xFF_FFFF / 128 == 0x1_FFFF && 0x1_FFFF / 128 == 0x3FF && 0x3FF / 128 == 7;
    assert |EncVarint(7)| == 1 && |EncVarint(0x3FF)| == 2 && |EncVarint(0x1_FFFF)| == 3 && |EncVarint(0xFF_FFFF)| == 4;
  }

  lemma SlimResponse(m: ResponseMsg)
    ensures |EncResponse(m)| <= |EncResponse(Slim(m))| + 10
  {
    hide EncResponse, DelimSize, VarintSize, Slim32;
    ResponseSize(m);
    ResponseSize(Slim(m));
    SlimWidth(m.status);
    SlimWidth(m.code);
  }

  // ---------------------------------------------------------------------------------------
  // AppInfo
  // ---------------------------------------------------------------------------------------

  function SlimArm(a: Arm): Arm {
    if a.RespArm? then RespArm(Slim(a.resp)) else a
  }

  function SlimInfo(m: InfoMsg): InfoMsg {
    m.(arm := SlimArm(m.arm))
  }

  /** Size of the record of a nested message of n bytes, with a tag of one byte. */
  function RecordSize(n: nat): nat {
    1 + n + |EncVarint(n)|
  }

  function ArmSize(a: Arm): nat {
    match a
    case NoArm => 0
    case ReqArm(req) => RecordSize(|EncRequest(req)|)
    case RespArm(resp) => RecordSize(|EncResponse(resp)|)
  }

  function TraceFieldSize(t: Option<TraceMsg>): nat {
    if t.None? then 0 else RecordSize(|EncTrace(t.value)|)
  }

  lemma RecordOf(num: nat, d: bytes)
    requires 0 < num < 16
    ensures |EncRec(DelimRec(num, d))| == RecordSize(|d|)
  {
    hide EncVarint;
    TagLength(num, 2);
  }

  lemma ArmSizes(a: Arm)
    ensures |EncRecs(ArmRecs(a))| == ArmSize(a)
  {
    hide EncRec, EncRequest, EncResponse, RecordSize;
    match a
    case NoArm =>
    case ReqArm(req) => RecordOf(10, EncRequest(req)); OneRecord(DelimRec(10, EncRequest(req)));
    case RespArm(resp) => RecordOf(11, EncResponse(resp)); OneRecord(DelimRec(11, EncResponse(resp)));
  }

  lemma OneRecord(r: Rec)
    ensures EncRecs([r]) == EncRec(r)
  {
    hide EncRec;
    assert [r][1..] == [] && EncRecs([]) == [];
  }

  /** The size of an AppInfo, field by field. */
  lemma InfoSizes(m: InfoMsg)
    ensures |EncInfo(m)|
         == VarintSize(1, RawU32(m.reqLen)) + VarintSize(1, RawU32(m.respLen)) + VarintSize(1, RawU32(m.requestId))
            + ArmSize(m.arm) + TraceFieldSize(m.trace) + DelimSize(1, m.protocolStr)
            + (if m.isEnd.Some? then 3 else 0) + (if m.isAsync.Some? then 3 else 0)
            + (if m.isReversed.Some? then 3 else 0)
            + |EncRecs(AttributeRecs(m))|
            + VarintSize(2, RawU32(m.bizType)) + DelimSize(2, m.bizCode) + DelimSize(2, m.bizScenario)
            + DelimSize(2, m.bizResponseCode) + |m.unknown|
  {
    hide EncInfo, EncRecs, LengthRecs, ArmRecs, TraceAndProtocolRecs, FlagRecs, AttributeRecs, BizRecs;
    hide VarintSize, ArmSize, EncTrace, SizeOfVarint;
    InfoSize(m);
    LengthSize(m);
    ArmSizes(m.arm);
    TraceAndProtocolSize(m);
    if m.trace.Some? { SizeOfVarintExact(|EncTrace(m.trace.value)|); }
    FlagSize(m);
    BizSize(m);
  }

  /** Two nested messages merged into one need no more room than their two records. */
  lemma RecordsMerge(n: nat, x: nat, d: nat)
    requires n <= x + d
    ensures RecordSize(n) <= RecordSize(x) + RecordSize(d)
    ensures n <= d ==> RecordSize(n) <= RecordSize(d)
  {
    hide EncVarint;
    VarintMonotone(n, x + d);
    VarintSum(x, d);
    if n <= d { VarintMonotone(n, d); }
  }

  lemma EmptySizes()
    ensures EncRequest(NO_REQUEST) == EncResponse(NO_RESPONSE) == EncTrace(NO_TRACE) == EncKeyVal(NO_KEYVAL) == []
    ensures EncInfo(NO_INFO) == [] && EncNats(NO_NATS) == [] && Slim(NO_RESPONSE) == NO_RESPONSE
  {
  }

  lemma ReqStepSize(x: InfoMsg, d: bytes)
    ensures ArmSize(SlimArm(DecodeReq(x, d).msg.arm)) <= ArmSize(SlimArm(x.arm)) + RecordSize(|d|)
    ensures DecodeReq(x, d).msg == x.(arm := DecodeReq(x, d).msg.arm)
  {
    hide Decode, EncRequest, EncResponse, RecordSize, Slim;
    EmptySizes();
    var q := if x.arm.ReqArm? then x.arm.req else NO_REQUEST;
    RequestGrowth(q, d);
    RecordsMerge(|EncRequest(Decode(REQUEST, q, d).msg)|, |EncRequest(q)|, |d|);
  }

  lemma RespStepSize(x: InfoMsg, d: bytes)
    ensures ArmSize(SlimArm(DecodeResp(x, d).msg.arm)) <= ArmSize(SlimArm(x.arm)) + RecordSize(|d|)
    ensures DecodeResp(x, d).msg == x.(arm := DecodeResp(x, d).msg.arm)
  {
    hide Decode, EncRequest, EncResponse, RecordSize, Slim;
    EmptySizes();
    var p := if x.arm.RespArm? then x.arm.resp else NO_RESPONSE;
    ResponseGrowth(p, d);
    RecordsMerge(|EncResponse(Slim(Decode(RESPONSE, p, d).msg))|, |EncResponse(Slim(p))|, |d|);
  }

  lemma TraceFieldStepSize(x: InfoMsg, d: bytes)
    ensures TraceFieldSize(DecodeTrace(x, d).msg.trace) <= TraceFieldSize(x.trace) + RecordSize(|d|)
    ensures DecodeTrace(x, d).msg == x.(trace := DecodeTrace(x, d).msg.trace)
  {
    hide Decode, EncTrace, RecordSize;
    EmptySizes();
    var t := if x.trace.Some? then x.trace.value else NO_TRACE;
    TraceGrowth(t, d);
    RecordsMerge(|EncTrace(Decode(TRACE, t, d).msg)|, |EncTrace(t)|, |d|);
  }

  lemma AttributeStepSize(x: InfoMsg, d: bytes)
    ensures |EncRecs(AttributeRecs(DecodeAttribute(x, d).msg))|
         <= |EncRecs(AttributeRecs(x))| + |EncRec(DelimRec(31, d))|
    ensures DecodeAttribute(x, d).msg == x.(attributes := DecodeAttribute(x, d).msg.attributes)
  {
    hide Decode, EncKeyVal, EncRec, EncRecs, Repeated, SizeOfVarint, EncVarint;
    EmptySizes();
    var kv := Decode(KEYVAL, NO_KEYVAL, d).msg;
    var kvs := x.attributes + [kv];
    var items := EncKeyVals(kvs);
    KeyValGrowth(NO_KEYVAL, d);
    EncKeyValsAt(kvs);
    EncKeyValsAt(x.attributes);
    assert items[..|x.attributes|] == EncKeyVals(x.attributes) && items[..|kvs|] == items;
    RepeatedBack(31, items, |x.attributes|);
    FieldSize(31, d);
    VarintMonotone(|EncKeyVal(kv)|, |d|);
    SizeOfVarintExact(|EncKeyVal(kv)|);
    SizeOfVarintExact(|d|);
  }

  lemma NumberStepSize(x: InfoMsg, num: int, raw: nat)
    requires InfoKind(num) == VarintKind
    ensures |EncInfo(SlimInfo(InfoVarint(x, num, raw)))| <= |EncInfo(SlimInfo(x))| + |EncRec(VarintRec(num, raw))|
  {
    hide EncInfo, EncRec, EncRecs, Repeated, EncKeyVals, DelimSize, SizeOfVarint, ArmSize, TraceFieldSize;
    hide SlimArm, Truncate;
    InfoSizes(SlimInfo(x));
    InfoSizes(SlimInfo(InfoVarint(x, num, raw)));
    LowBits(raw);
    NumberSize(num, raw, Truncate(raw, Bits32));
    NumberSize(num, raw, 0);
    LengthsOfExample();
    match num
    case 1 =>
    case 2 =>
    case 3 =>
    case 21 =>
    case 22 =>
    case 23 =>
    case 32 =>
  }

  lemma StringStepSize(x: InfoMsg, num: int, d: bytes)
    requires num == 13 || 33 <= num <= 35
    ensures |EncInfo(SlimInfo(InfoDelim(x, num, d).msg))| <= |EncInfo(SlimInfo(x))| + |EncRec(DelimRec(num, d))|
  {
    hide EncInfo, EncRec, EncRecs, Repeated, EncKeyVals, VarintSize, ArmSize, TraceFieldSize, SlimArm;
    hide DecodeReq, DecodeResp, DecodeTrace, DecodeAttribute;
    InfoSizes(SlimInfo(x));
    InfoSizes(SlimInfo(InfoDelim(x, num, d).msg));
    FieldSize(num, d);
    match num
    case 13 =>
    case 33 =>
    case 34 =>
    case 35 =>
  }

  /** No record makes a message grow by more than its own size. */
  lemma InfoStepSize(x: InfoMsg, r: Rec)
    requires Sound(InfoKind, r)
    ensures |EncInfo(SlimInfo(Apply(INFO, x, r).msg))| <= |EncInfo(SlimInfo(x))| + |EncRec(r)|
  {
    hide EncInfo, EncRec, EncRecs, Repeated, EncKeyVals, VarintSize, DelimSize, ArmSize, TraceFieldSize, SlimArm;
    hide DecodeReq, DecodeResp, DecodeTrace, DecodeAttribute, InfoVarint, RecordSize, ReadRec;
    match r
    case VarintRec(num, raw) => NumberStepSize(x, num, raw);
    case RawRec(data) =>
      RawSize(data);
      InfoSizes(SlimInfo(x));
      InfoSizes(SlimInfo(InfoKeep(x, data)));
    case DelimRec(num, d) =>
      InfoSizes(SlimInfo(x));
      InfoSizes(SlimInfo(InfoDelim(x, num, d).msg));
      if num == 10 {
        ReqStepSize(x, d);
        RecordOf(num, d);
      } else if num == 11 {
        RespStepSize(x, d);
        RecordOf(num, d);
      } else if num == 12 {
        TraceFieldStepSize(x, d);
        RecordOf(num, d);
      } else if num == 31 {
        AttributeStepSize(x, d);
      } else {
        StringStepSize(x, num, d);
      }
  }

  lemma SlimInfoWidth(m: InfoMsg)
    ensures |EncInfo(m)| <= |EncInfo(SlimInfo(m))| + 11
  {
    hide EncInfo, EncRecs, Repeated, EncKeyVals, VarintSize, DelimSize, TraceFieldSize;
    hide EncRequest, EncResponse, EncVarint, Slim;
    InfoSizes(m);
    InfoSizes(SlimInfo(m));
    if m.arm.RespArm? {
      var n, k := |EncResponse(m.arm.resp)|, |EncResponse(Slim(m.arm.resp))|;
      SlimResponse(m.arm.resp);
      VarintMonotone(n, k + 10);
      VarintSum(k, 10);
      OneByte();
    }
  }

  lemma OneByte()
    ensures |EncVarint(10)| == 1
  {
  }

  /** Written again, a decoded input takes at most eleven bytes more. */
  lemma InfoGrowth(b: bytes)
    ensures |EncInfo(Decode(INFO, NO_INFO, b).msg)| <= |b| + 11
  {
    hide EncInfo, SlimInfo, EncRec, Decode, Apply, Sound;
    forall y, r | Sound(INFO.kindOf, r)
      ensures |EncInfo(SlimInfo(Apply(INFO, y, r).msg))| <= |EncInfo(SlimInfo(y))| + |EncRec(r)| {
      InfoStepSize(y, r);
    }
    DecodeSize(INFO, y => |EncInfo(SlimInfo(y))|, NO_INFO, b);
    SlimInfoWidth(Decode(INFO, NO_INFO, b).msg);
    SlimNothing();
  }

  lemma SlimNothing()
    ensures EncInfo(SlimInfo(NO_INFO)) == []
  {
    EmptySizes();
  }

  // ---------------------------------------------------------------------------------------
  // Normal forms
  // ---------------------------------------------------------------------------------------

  /** Normal form: whatever bytes were decoded, in whatever order and spelling and with
      whatever unknown fields at any depth, and even when decoding failed halfway, writing
      the message and decoding it again gives that message. */
  lemma NormalForm(b: bytes)
    requires |b| + 11 <= MAX_INT
    ensures var m := Decode(INFO, NO_INFO, b).msg;
            Decode(INFO, NO_INFO, EncInfo(m)) == Decode(INFO, NO_INFO, EncInfoStrict(m)) == Outcome(m, None)
  {
    hide Decode, EncInfo, EncInfoStrict, InfoWf;
    EmptyWf();
    InfoDecodeWf(NO_INFO, b);
    InfoGrowth(b);
    InfoRoundTrip(Decode(INFO, NO_INFO, b).msg);
  }

  /** The same for a NATS message, for every input there is. */
  lemma NatsNormalForm(b: bytes)
    requires |b| <= MAX_INT
    ensures var m := Decode(NATS, NO_NATS, b).msg;
            |EncNats(m)| <= |b| && Decode(NATS, NO_NATS, EncNats(m)) == Outcome(m, None)
  {
    hide Decode, EncNats, NatsWf;
    EmptyWf();
    EmptySizes();
    NatsDecodeWf(NO_NATS, b);
    NatsGrowth(NO_NATS, b);
    NatsRoundTrip(Decode(NATS, NO_NATS, b).msg);
  }
}
