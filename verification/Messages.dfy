/**
 The messages of WasmPluginApi.proto as values: what each one holds, the records it is
 written as, and what its decoder does with each field.
 */
module Messages {
  import opened Machine
  import opened Wire
  import opened Codec

  datatype RequestMsg = RequestMsg(
    version: Option<bytes>, type_: Option<bytes>, domain: Option<bytes>,
    resource: Option<bytes>, endpoint: Option<bytes>, unknown: bytes)

  datatype ResponseMsg = ResponseMsg(
    status: Option<i32>, code: Option<i32>, exception: Option<bytes>, result: Option<bytes>,
    type_: Option<bytes>, endpoint: Option<bytes>, unknown: bytes)

  datatype TraceMsg = TraceMsg(
    traceId: Option<bytes>, spanId: Option<bytes>, parentSpanId: Option<bytes>,
    xRequestId: Option<bytes>, httpProxyClient: Option<bytes>, traceIds: seq<bytes>, unknown: bytes)

  datatype KeyValMsg = KeyValMsg(key: bytes, val: bytes, unknown: bytes)

  datatype Arm = NoArm | ReqArm(req: RequestMsg) | RespArm(resp: ResponseMsg)

  datatype InfoMsg = InfoMsg(
    reqLen: Option<u32>, respLen: Option<u32>, requestId: Option<u32>, arm: Arm,
    trace: Option<TraceMsg>, protocolStr: Option<bytes>, isEnd: Option<bool>, isAsync: Option<bool>,
    isReversed: Option<bool>, attributes: seq<KeyValMsg>, bizType: Option<u32>, bizCode: Option<bytes>,
    bizScenario: Option<bytes>, bizResponseCode: Option<bytes>, unknown: bytes)

  datatype NatsMsg = NatsMsg(subject: bytes, replyTo: bytes, payload: bytes, unknown: bytes)

  const NO_REQUEST := RequestMsg(None, None, None, None, None, [])
  const NO_RESPONSE := ResponseMsg(None, None, None, None, None, None, [])
  const NO_TRACE := TraceMsg(None, None, None, None, None, [], [])
  const NO_KEYVAL := KeyValMsg([], [], [])
  const NO_INFO := InfoMsg(None, None, None, NoArm, None, None, None, None, None, [], None, None, None, None, [])
  const NO_NATS := NatsMsg([], [], [], [])

  // ---------------------------------------------------------------------------------------
  // Schemas
  // ---------------------------------------------------------------------------------------

  function RequestKind(num: int): Kind {
    if 1 <= num <= 5 then DelimKind else UnknownKind
  }

  function RequestVarint(m: RequestMsg, num: int, raw: nat): RequestMsg {
    m
  }

  function RequestDelim(m: RequestMsg, num: int, d: bytes): Outcome<RequestMsg> {
    Outcome(match num
            case 1 => m.(version := Some(d))
            case 2 => m.(type_ := Some(d))
            case 3 => m.(domain := Some(d))
            case 4 => m.(resource := Some(d))
            case 5 => m.(endpoint := Some(d))
            case _ => m,
            None)
  }

  function RequestKeep(m: RequestMsg, u: bytes): RequestMsg {
    m.(unknown := m.unknown + u)
  }

  const REQUEST := Schema(RequestKind, RequestVarint, RequestDelim, RequestKeep)

  function ResponseKind(num: int): Kind {
    if 1 <= num <= 2 then VarintKind else if 3 <= num <= 6 then DelimKind else UnknownKind
  }

  function ResponseVarint(m: ResponseMsg, num: int, raw: nat): ResponseMsg {
    match num
    case 1 => m.(status := Some(ToI32(raw)))
    case 2 => m.(code := Some(ToI32(raw)))
    case _ => m
  }

  function ResponseDelim(m: ResponseMsg, num: int, d: bytes): Outcome<ResponseMsg> {
    Outcome(match num
            case 3 => m.(exception := Some(d))
            case 4 => m.(result := Some(d))
            case 5 => m.(type_ := Some(d))
            case 6 => m.(endpoint := Some(d))
            case _ => m,
            None)
  }

  function ResponseKeep(m: ResponseMsg, u: bytes): ResponseMsg {
    m.(unknown := m.unknown + u)
  }

  const RESPONSE := Schema(ResponseKind, ResponseVarint, ResponseDelim, ResponseKeep)

  function TraceKind(num: int): Kind {
    if 1 <= num <= 6 then DelimKind else UnknownKind
  }

  function TraceVarint(m: TraceMsg, num: int, raw: nat): TraceMsg {
    m
  }

  function TraceDelim(m: TraceMsg, num: int, d: bytes): Outcome<TraceMsg> {
    Outcome(match num
            case 1 => m.(traceId := Some(d))
            case 2 => m.(spanId := Some(d))
            case 3 => m.(parentSpanId := Some(d))
            case 4 => m.(xRequestId := Some(d))
            case 5 => m.(httpProxyClient := Some(d))
            case 6 => m.(traceIds := m.traceIds + [d])
            case _ => m,
            None)
  }

  function TraceKeep(m: TraceMsg, u: bytes): TraceMsg {
    m.(unknown := m.unknown + u)
  }

  const TRACE := Schema(TraceKind, TraceVarint, TraceDelim, TraceKeep)

  function KeyValKind(num: int): Kind {
    if 1 <= num <= 2 then DelimKind else UnknownKind
  }

  function KeyValVarint(m: KeyValMsg, num: int, raw: nat): KeyValMsg {
    m
  }

  function KeyValDelim(m: KeyValMsg, num: int, d: bytes): Outcome<KeyValMsg> {
    Outcome(match num case 1 => m.(key := d) case 2 => m.(val := d) case _ => m, None)
  }

  function KeyValKeep(m: KeyValMsg, u: bytes): KeyValMsg {
    m.(unknown := m.unknown + u)
  }

  const KEYVAL := Schema(KeyValKind, KeyValVarint, KeyValDelim, KeyValKeep)

  function NatsKind(num: int): Kind {
    if 1 <= num <= 3 then DelimKind else UnknownKind
  }

  function NatsVarint(m: NatsMsg, num: int, raw: nat): NatsMsg {
    m
  }

  function NatsDelim(m: NatsMsg, num: int, d: bytes): Outcome<NatsMsg> {
    Outcome(match num
            case 1 => m.(subject := d)
            case 2 => m.(replyTo := d)
            case 3 => m.(payload := d)
            case _ => m,
            None)
  }

  function NatsKeep(m: NatsMsg, u: bytes): NatsMsg {
    m.(unknown := m.unknown + u)
  }

  const NATS := Schema(NatsKind, NatsVarint, NatsDelim, NatsKeep)

  function InfoKind(num: int): Kind {
    if 1 <= num <= 3 || 21 <= num <= 23 || num == 32 then VarintKind
    else if 10 <= num <= 13 || num == 31 || 33 <= num <= 35 then DelimKind
    else UnknownKind
  }

  function InfoVarint(m: InfoMsg, num: int, raw: nat): InfoMsg {
    var v := Truncate(raw, Bits32);
    var flag := Truncate(raw, INT_WIDTH) != 0;
    match num
    case 1 => m.(reqLen := Some(v))
    case 2 => m.(respLen := Some(v))
    case 3 => m.(requestId := Some(v))
    case 21 => m.(isEnd := Some(flag))
    case 22 => m.(isAsync := Some(flag))
    case 23 => m.(isReversed := Some(flag))
    case 32 => m.(bizType := Some(v))
    case _ => m
  }

  /** A second record of the same arm merges into it; another arm replaces it, once it has
      decoded. */
  function DecodeReq(m: InfoMsg, d: bytes): Outcome<InfoMsg> {
    if m.arm.ReqArm? then
      var o := Decode(REQUEST, m.arm.req, d);
      Outcome(m.(arm := ReqArm(o.msg)), o.err)
    else
      var o := Decode(REQUEST, NO_REQUEST, d);
      if o.err.Some? then Outcome(m, o.err) else Outcome(m.(arm := ReqArm(o.msg)), None)
  }

  function DecodeResp(m: InfoMsg, d: bytes): Outcome<InfoMsg> {
    if m.arm.RespArm? then
      var o := Decode(RESPONSE, m.arm.resp, d);
      Outcome(m.(arm := RespArm(o.msg)), o.err)
    else
      var o := Decode(RESPONSE, NO_RESPONSE, d);
      if o.err.Some? then Outcome(m, o.err) else Outcome(m.(arm := RespArm(o.msg)), None)
  }

  function DecodeTrace(m: InfoMsg, d: bytes): Outcome<InfoMsg> {
    var o := Decode(TRACE, if m.trace.Some? then m.trace.value else NO_TRACE, d);
    Outcome(m.(trace := Some(o.msg)), o.err)
  }

  function DecodeAttribute(m: InfoMsg, d: bytes): Outcome<InfoMsg> {
    var o := Decode(KEYVAL, NO_KEYVAL, d);
    Outcome(m.(attributes := m.attributes + [o.msg]), o.err)
  }

  function InfoDelim(m: InfoMsg, num: int, d: bytes): Outcome<InfoMsg> {
    match num
    case 10 => DecodeReq(m, d)
    case 11 => DecodeResp(m, d)
    case 12 => DecodeTrace(m, d)
    case 13 => Outcome(m.(protocolStr := Some(d)), None)
    case 31 => DecodeAttribute(m, d)
    case 33 => Outcome(m.(bizCode := Some(d)), None)
    case 34 => Outcome(m.(bizScenario := Some(d)), None)
    case 35 => Outcome(m.(bizResponseCode := Some(d)), None)
    case _ => Outcome(m, None)
  }

  function InfoKeep(m: InfoMsg, u: bytes): InfoMsg {
    m.(unknown := m.unknown + u)
  }

  const INFO := Schema(InfoKind, InfoVarint, InfoDelim, InfoKeep)

  // ---------------------------------------------------------------------------------------
  // Writing
  // ---------------------------------------------------------------------------------------

  function RawI32(o: Option<i32>): Option<nat> {
    if o.None? then None else Some(SignExtend(o.value))
  }

  function RawU32(o: Option<u32>): Option<nat> {
    if o.None? then None else Some(o.value)
  }

  function RawBool(o: Option<bool>): Option<nat> {
    if o.None? then None else Some(if o.value then 1 else 0)
  }

  function RequestRecs(m: RequestMsg): seq<Rec> {
    OptDelim(1, m.version) + (OptDelim(2, m.type_) + (OptDelim(3, m.domain) +
    (OptDelim(4, m.resource) + (OptDelim(5, m.endpoint) + []))))
  }

  function EncRequest(m: RequestMsg): bytes {
    EncRecs(RequestRecs(m)) + m.unknown
  }

  function ResponseRecs(m: ResponseMsg): seq<Rec> {
    OptVarint(1, RawI32(m.status)) + (OptVarint(2, RawI32(m.code)) +
    (OptDelim(3, m.exception) + (OptDelim(4, m.result) +
    (OptDelim(5, m.type_) + (OptDelim(6, m.endpoint) + [])))))
  }

  function EncResponse(m: ResponseMsg): bytes {
    EncRecs(ResponseRecs(m)) + m.unknown
  }

  function TraceRecs(m: TraceMsg): seq<Rec> {
    OptDelim(1, m.traceId) + (OptDelim(2, m.spanId) + (OptDelim(3, m.parentSpanId) +
    (OptDelim(4, m.xRequestId) + (OptDelim(5, m.httpProxyClient) + Repeated(6, m.traceIds)))))
  }

  function EncTrace(m: TraceMsg): bytes {
    EncRecs(TraceRecs(m)) + m.unknown
  }

  function KeyValRecs(m: KeyValMsg): seq<Rec> {
    OptDelim(1, NonEmpty(m.key)) + (OptDelim(2, NonEmpty(m.val)) + [])
  }

  function EncKeyVal(m: KeyValMsg): bytes {
    EncRecs(KeyValRecs(m)) + m.unknown
  }

  function NatsRecs(m: NatsMsg): seq<Rec> {
    OptDelim(1, NonEmpty(m.subject)) + (OptDelim(2, NonEmpty(m.replyTo)) +
    (OptDelim(3, NonEmpty(m.payload)) + []))
  }

  function EncNats(m: NatsMsg): bytes {
    EncRecs(NatsRecs(m)) + m.unknown
  }

  function ArmRecs(a: Arm): seq<Rec> {
    match a
    case NoArm => []
    case ReqArm(req) => [DelimRec(10, EncRequest(req))]
    case RespArm(resp) => [DelimRec(11, EncResponse(resp))]
  }

  function EncTraceOpt(o: Option<TraceMsg>): Option<bytes> {
    if o.None? then None else Some(EncTrace(o.value))
  }

  function EncKeyVals(kvs: seq<KeyValMsg>): seq<bytes> {
    if kvs == [] then [] else [EncKeyVal(kvs[0])] + EncKeyVals(kvs[1..])
  }

  // The groups of fields of an AppInfo, in field order; the oneof belongs after the first.

  function LengthRecs(m: InfoMsg): seq<Rec> {
    OptVarint(1, RawU32(m.reqLen)) + (OptVarint(2, RawU32(m.respLen)) +
    (OptVarint(3, RawU32(m.requestId)) + []))
  }

  function TraceAndProtocolRecs(m: InfoMsg): seq<Rec> {
    OptDelim(12, EncTraceOpt(m.trace)) + (OptDelim(13, m.protocolStr) + [])
  }

  function FlagRecs(m: InfoMsg): seq<Rec> {
    OptVarint(21, RawBool(m.isEnd)) + (OptVarint(22, RawBool(m.isAsync)) +
    (OptVarint(23, RawBool(m.isReversed)) + []))
  }

  function AttributeRecs(m: InfoMsg): seq<Rec> {
    Repeated(31, EncKeyVals(m.attributes))
  }

  function BizRecs(m: InfoMsg): seq<Rec> {
    OptVarint(32, RawU32(m.bizType)) + (OptDelim(33, m.bizCode) +
    (OptDelim(34, m.bizScenario) + (OptDelim(35, m.bizResponseCode) + [])))
  }

  function RecsFrom12(m: InfoMsg): seq<Rec> {
    TraceAndProtocolRecs(m) + (FlagRecs(m) + (AttributeRecs(m) + BizRecs(m)))
  }

  /** `MarshalVT` writes the oneof after field 35. */
  function InfoRecs(m: InfoMsg): seq<Rec> {
    LengthRecs(m) + (RecsFrom12(m) + ArmRecs(m.arm))
  }

  function EncInfo(m: InfoMsg): bytes {
    EncRecs(InfoRecs(m)) + m.unknown
  }

  /** `MarshalVTStrict` writes it at its place in the field order. */
  function StrictRecs(m: InfoMsg): seq<Rec> {
    LengthRecs(m) + (ArmRecs(m.arm) + RecsFrom12(m))
  }

  function EncInfoStrict(m: InfoMsg): bytes {
    EncRecs(StrictRecs(m)) + m.unknown
  }
}
