/** The generated methods of `AppInfo`, whose nested messages are objects of their own. */
module AppInfos {
  import opened Machine
  import opened Varint
  import opened Wire
  import opened Codec
  import opened Messages
  import opened RoundTrip
  import opened Buffers
  import opened Sizes
  import opened AppRequests
  import opened AppResponses
  import opened AppTraces
  import opened KeyVals

  /** The oneof `info`; a set arm holds a message. */
  datatype Oneof = NoInfo | Req(req: AppRequest) | Resp(resp: AppResponse)

  function ArmObject(info: Oneof): set<object> {
    match info case NoInfo => {} case Req(req) => {req} case Resp(resp) => {resp}
  }

  function ArmValue(info: Oneof): Arm
    reads ArmObject(info)
  {
    match info
    case NoInfo => NoArm
    case Req(req) => ReqArm(req.Value())
    case Resp(resp) => RespArm(resp.Value())
  }

  function TraceValue(trace: AppTrace?): Option<TraceMsg>
    reads trace
  {
    if trace == null then None else Some(trace.Value())
  }

  /** A nil attribute stands for an empty one. */
  function KeyValValue(kv: KeyVal?): KeyValMsg
    reads kv
  {
    if kv == null then NO_KEYVAL else kv.Value()
  }

  function KeyValValues(kvs: seq<KeyVal?>): (vs: seq<KeyValMsg>)
    reads set kv: KeyVal | kv in kvs
    ensures |vs| == |kvs| && forall k :: 0 <= k < |kvs| ==> vs[k] == KeyValValue(kvs[k])
    decreases |kvs|
  {
    if kvs == [] then [] else [KeyValValue(kvs[0])] + KeyValValues(kvs[1..])
  }

  lemma AppendedValue(kvs: seq<KeyVal?>, kv: KeyVal)
    ensures KeyValValues(kvs + [kv]) == KeyValValues(kvs) + [kv.Value()]
  {
    assert KeyValValues(kvs + [kv])[..|kvs|] == KeyValValues(kvs);
  }

  /** The order in which the writer puts its groups in front of one another. */
  lemma WriteOrder(v: InfoMsg)
    ensures InfoRecs(v) == LengthRecs(v) + (TraceAndProtocolRecs(v) + (FlagRecs(v) + (AttributeRecs(v) +
                           (BizRecs(v) + ArmRecs(v.arm)))))
  {
    hide LengthRecs, ArmRecs, TraceAndProtocolRecs, FlagRecs, AttributeRecs, BizRecs;
  }

  /** `SizeVT` of an attribute; a nil one has size 0. */
  method SizeOfKeyVal(kv: KeyVal?) returns (n: int)
    ensures n == ToInt(|EncKeyVal(KeyValValue(kv))|)
  {
    if kv == null {
      n := 0;
      NoKeyValBytes();
    } else {
      n := kv.SizeVT();
    }
  }

  lemma StrictOrder(v: InfoMsg)
    ensures StrictRecs(v) == LengthRecs(v) + (ArmRecs(v.arm) + (TraceAndProtocolRecs(v) + (FlagRecs(v) +
                             (AttributeRecs(v) + BizRecs(v)))))
    ensures BizRecs(v) + [] == BizRecs(v)
  {
    hide LengthRecs, ArmRecs, TraceAndProtocolRecs, FlagRecs, AttributeRecs, BizRecs;
  }

  lemma Chain(a: seq<Rec>, b: seq<Rec>, c: seq<Rec>, d: seq<Rec>, rest: seq<Rec>)
    ensures (a + (b + (c + (d + [])))) + rest == a + (b + (c + (d + rest)))
    ensures (a + (b + (c + []))) + rest == a + (b + (c + rest))
    ensures (a + (b + [])) + rest == a + (b + rest)
  {
  }

  // ---------------------------------------------------------------------------------------
  // Writers of the groups of fields, each in front of the records `rest` and the unknown u
  // ---------------------------------------------------------------------------------------

  method PutLengths(dAtA: array<byte>, lo: nat, i: int, hi: nat,
                    reqLen: Option<u32>, respLen: Option<u32>, requestId: Option<u32>,
                    ghost v: InfoMsg, ghost rest: seq<Rec>, ghost u: bytes)
    returns (j: int)
    requires reqLen == v.reqLen && respLen == v.respLen && requestId == v.requestId
    requires Written(dAtA, lo, i, hi, EncRecs(rest) + u)
    modifies dAtA
    ensures Written(dAtA, lo, j, hi, EncRecs(LengthRecs(v) + rest) + u) && j <= i
    ensures Untouched(dAtA, lo, j, hi)
  {
    hide Written, EncRecs, OptVarint;
    ghost var a, b, c := OptVarint(1, RawU32(reqLen)), OptVarint(2, RawU32(respLen)), OptVarint(3, RawU32(requestId));
    Chain(a, b, c, [], rest);
    j := PutOptVarint(dAtA, lo, i, hi, [0x18], RawU32(requestId), 3, rest, u);
    j := PutOptVarint(dAtA, lo, j, hi, [0x10], RawU32(respLen), 2, c + rest, u);
    j := PutOptVarint(dAtA, lo, j, hi, [0x8], RawU32(reqLen), 1, b + (c + rest), u);
  }

  method PutTraceAndProtocol(dAtA: array<byte>, lo: nat, i: int, hi: nat, trace: AppTrace?, protocolStr: Option<bytes>,
                             ghost v: InfoMsg, ghost rest: seq<Rec>, ghost u: bytes)
    returns (j: int)
    requires TraceValue(trace) == v.trace && protocolStr == v.protocolStr
    requires Written(dAtA, lo, i, hi, EncRecs(rest) + u)
    modifies dAtA
    ensures Written(dAtA, lo, j, hi, EncRecs(TraceAndProtocolRecs(v) + rest) + u) && j <= i
    ensures Untouched(dAtA, lo, j, hi)
  {
    hide Written, EncRecs, EncRec, EncTrace, OptDelim;
    ghost var t := EncTraceOpt(v.trace);
    ghost var a, b := OptDelim(12, t), OptDelim(13, protocolStr);
    Chain(a, b, [], [], rest);
    OptDelimBytes(12, t, b + rest);
    j := PutOptDelim(dAtA, lo, i, hi, [0x6a], protocolStr, 13, rest, u);
    if trace != null {
      ghost var field := EncRec(DelimRec(12, EncTrace(trace.Value())));
      j := PutTrace(dAtA, lo, j, hi, trace, EncRecs(b + rest) + u);
      assert field + (EncRecs(b + rest) + u) == field + EncRecs(b + rest) + u;
    }
  }

  method PutTrace(dAtA: array<byte>, lo: nat, i: int, hi: nat, trace: AppTrace, ghost tail: bytes) returns (j: int)
    requires Written(dAtA, lo, i, hi, tail)
    modifies dAtA
    ensures Written(dAtA, lo, j, hi, EncRec(DelimRec(12, EncTrace(trace.Value()))) + tail) && j <= i
    ensures Untouched(dAtA, lo, j, hi)
  {
    hide EncRec, EncTrace;
    ghost var s := EncTrace(trace.Value());
    if i == PANICKED {
      NestPanicked(dAtA, lo, hi, 12, s, tail);
      return i;
    }
    var size := trace.MarshalToSizedBufferVT(dAtA, lo, i);
    j := PutNested(dAtA, lo, i, hi, [0x62], size, 12, s, tail);
  }

  method PutFlags(dAtA: array<byte>, lo: nat, i: int, hi: nat,
                  isEnd: Option<bool>, isAsync: Option<bool>, isReversed: Option<bool>,
                  ghost v: InfoMsg, ghost rest: seq<Rec>, ghost u: bytes)
    returns (j: int)
    requires isEnd == v.isEnd && isAsync == v.isAsync && isReversed == v.isReversed
    requires Written(dAtA, lo, i, hi, EncRecs(rest) + u)
    modifies dAtA
    ensures Written(dAtA, lo, j, hi, EncRecs(FlagRecs(v) + rest) + u) && j <= i
    ensures Untouched(dAtA, lo, j, hi)
  {
    hide Written, EncRecs, OptVarint;
    ghost var a, b := OptVarint(21, RawBool(isEnd)), OptVarint(22, RawBool(isAsync));
    ghost var c := OptVarint(23, RawBool(isReversed));
    Chain(a, b, c, [], rest);
    j := PutOptVarint(dAtA, lo, i, hi, [0xb8, 0x1], RawBool(isReversed), 23, rest, u);
    j := PutOptVarint(dAtA, lo, j, hi, [0xb0, 0x1], RawBool(isAsync), 22, c + rest, u);
    j := PutOptVarint(dAtA, lo, j, hi, [0xa8, 0x1], RawBool(isEnd), 21, b + (c + rest), u);
  }

  /** The loop over the attributes, from the last to the first. */
  method PutAttributes(dAtA: array<byte>, lo: nat, i: int, hi: nat, attributes: seq<KeyVal?>,
                       ghost v: InfoMsg, ghost rest: seq<Rec>, ghost u: bytes)
    returns (j: int)
    requires KeyValValues(attributes) == v.attributes
    requires Written(dAtA, lo, i, hi, EncRecs(rest) + u)
    modifies dAtA
    ensures Written(dAtA, lo, j, hi, EncRecs(AttributeRecs(v) + rest) + u) && j <= i
    ensures Untouched(dAtA, lo, j, hi)
  {
    hide Written, EncRecs, EncRec, EncKeyVal, EncVarint, Repeated, RepeatedFrom, KeyValValues;
    ghost var items := EncKeyVals(v.attributes);
    ghost var end := EncRecs(rest) + u;
    EncKeyValsAt(v.attributes);
    EncRecsConcat(Repeated(31, items), rest);
    RepeatedEnds(31, items, end);
    j := i;
    var iNdEx: nat := |attributes|;
    while iNdEx > 0
      invariant iNdEx <= |attributes| && KeyValValues(attributes) == v.attributes && j <= i
      invariant Written(dAtA, lo, j, hi, RepeatedFrom(31, items, iNdEx, end))
      invariant Untouched(dAtA, lo, j, hi)
    {
      iNdEx := iNdEx - 1;
      RepeatedStep(31, items, iNdEx, end);
      j := PutAttribute(dAtA, lo, j, hi, attributes[iNdEx], RepeatedFrom(31, items, iNdEx + 1, end));
    }
    assert EncRecs(Repeated(31, items)) + end == EncRecs(Repeated(31, items)) + EncRecs(rest) + u;
  }

  /** `MarshalToSizedBufferVT` of an attribute, its length and its tag; a nil one is empty. */
  method PutAttribute(dAtA: array<byte>, lo: nat, i: int, hi: nat, kv: KeyVal?, ghost tail: bytes) returns (j: int)
    requires Written(dAtA, lo, i, hi, tail)
    modifies dAtA
    ensures Written(dAtA, lo, j, hi, EncRec(DelimRec(31, EncKeyVal(KeyValValue(kv)))) + tail) && j <= i
    ensures Untouched(dAtA, lo, j, hi)
  {
    hide EncRec, EncKeyVal;
    ghost var s := EncKeyVal(KeyValValue(kv));
    if i == PANICKED {
      NestPanicked(dAtA, lo, hi, 31, s, tail);
      return i;
    }
    var size := Some(0);
    if kv == null {
      NoKeyValBytes();
    } else {
      size := kv.MarshalToSizedBufferVT(dAtA, lo, i);
    }
    j := PutNested(dAtA, lo, i, hi, [0xfa, 0x1], size, 31, s, tail);
  }

  method PutBiz(dAtA: array<byte>, lo: nat, i: int, hi: nat, bizType: Option<u32>, bizCode: Option<bytes>,
                bizScenario: Option<bytes>, bizResponseCode: Option<bytes>,
                ghost v: InfoMsg, ghost rest: seq<Rec>, ghost u: bytes)
    returns (j: int)
    requires bizType == v.bizType && bizCode == v.bizCode
    requires bizScenario == v.bizScenario && bizResponseCode == v.bizResponseCode
    requires Written(dAtA, lo, i, hi, EncRecs(rest) + u)
    modifies dAtA
    ensures Written(dAtA, lo, j, hi, EncRecs(BizRecs(v) + rest) + u) && j <= i
    ensures Untouched(dAtA, lo, j, hi)
  {
    hide Written, EncRecs, OptVarint, OptDelim;
    ghost var a, b := OptVarint(32, RawU32(bizType)), OptDelim(33, bizCode);
    ghost var c, d := OptDelim(34, bizScenario), OptDelim(35, bizResponseCode);
    Chain(a, b, c, d, rest);
    j := PutOptDelim(dAtA, lo, i, hi, [0x9a, 0x2], bizResponseCode, 35, rest, u);
    j := PutOptDelim(dAtA, lo, j, hi, [0x92, 0x2], bizScenario, 34, d + rest, u);
    j := PutOptDelim(dAtA, lo, j, hi, [0x8a, 0x2], bizCode, 33, c + (d + rest), u);
    j := PutOptVarint(dAtA, lo, j, hi, [0x80, 0x2], RawU32(bizType), 32, b + (c + (d + rest)), u);
  }

  /** The oneof: `MarshalToSizedBufferVT` of whichever wrapper is set. */
  method PutArm(dAtA: array<byte>, lo: nat, i: int, hi: nat, info: Oneof,
                ghost v: InfoMsg, ghost rest: seq<Rec>, ghost u: bytes)
    returns (j: int)
    requires ArmValue(info) == v.arm
    requires Written(dAtA, lo, i, hi, EncRecs(rest) + u)
    modifies dAtA
    ensures Written(dAtA, lo, j, hi, EncRecs(ArmRecs(v.arm) + rest) + u) && j <= i
    ensures Untouched(dAtA, lo, j, hi)
  {
    hide Written, EncRecs, EncRec, EncRequest, EncResponse;
    match info {
      case NoInfo =>
        assert [] + rest == rest;
        j := i;
      case Req(req) =>
        OptDelimBytes(10, Some(EncRequest(req.Value())), rest);
        ghost var field := EncRec(DelimRec(10, EncRequest(req.Value())));
        j := PutReq(dAtA, lo, i, hi, req, EncRecs(rest) + u);
        assert field + (EncRecs(rest) + u) == field + EncRecs(rest) + u;
      case Resp(resp) =>
        OptDelimBytes(11, Some(EncResponse(resp.Value())), rest);
        ghost var field := EncRec(DelimRec(11, EncResponse(resp.Value())));
        j := PutResp(dAtA, lo, i, hi, resp, EncRecs(rest) + u);
        assert field + (EncRecs(rest) + u) == field + EncRecs(rest) + u;
    }
  }

  /** `AppInfo_Req.MarshalToSizedBufferVT`. */
  method PutReq(dAtA: array<byte>, lo: nat, i: int, hi: nat, req: AppRequest, ghost tail: bytes) returns (j: int)
    requires Written(dAtA, lo, i, hi, tail)
    modifies dAtA
    ensures Written(dAtA, lo, j, hi, EncRec(DelimRec(10, EncRequest(req.Value()))) + tail) && j <= i
    ensures Untouched(dAtA, lo, j, hi)
  {
    hide EncRec, EncRequest;
    ghost var s := EncRequest(req.Value());
    if i == PANICKED {
      NestPanicked(dAtA, lo, hi, 10, s, tail);
      return i;
    }
    var size := req.MarshalToSizedBufferVT(dAtA, lo, i);
    j := PutNested(dAtA, lo, i, hi, [0x52], size, 10, s, tail);
  }

  /** `AppInfo_Resp.MarshalToSizedBufferVT`. */
  method PutResp(dAtA: array<byte>, lo: nat, i: int, hi: nat, resp: AppResponse, ghost tail: bytes) returns (j: int)
    requires Written(dAtA, lo, i, hi, tail)
    modifies dAtA
    ensures Written(dAtA, lo, j, hi, EncRec(DelimRec(11, EncResponse(resp.Value()))) + tail) && j <= i
    ensures Untouched(dAtA, lo, j, hi)
  {
    hide EncRec, EncResponse;
    ghost var s := EncResponse(resp.Value());
    if i == PANICKED {
      NestPanicked(dAtA, lo, hi, 11, s, tail);
      return i;
    }
    var size := resp.MarshalToSizedBufferVT(dAtA, lo, i);
    j := PutNested(dAtA, lo, i, hi, [0x5a], size, 11, s, tail);
  }

  class AppInfo {
    var reqLen: Option<u32>
    var respLen: Option<u32>
    var requestId: Option<u32>
    var info: Oneof
    var trace: AppTrace?
    var protocolStr: Option<bytes>
    var isEnd: Option<bool>
    var isAsync: Option<bool>
    var isReversed: Option<bool>
    var attributes: seq<KeyVal?>
    var bizType: Option<u32>
    var bizCode: Option<bytes>
    var bizScenario: Option<bytes>
    var bizResponseCode: Option<bytes>
    var unknownFields: bytes

    /** The empty message `&AppInfo{}`. */
    constructor ()
      ensures Value() == NO_INFO && Merged() == {}
      ensures attributes == []
    {
      reqLen, respLen, requestId, info, trace := None, None, None, NoInfo, null;
      protocolStr, isEnd, isAsync, isReversed, attributes := None, None, None, None, [];
      bizType, bizCode, bizScenario, bizResponseCode, unknownFields := None, None, None, None, [];
    }

    /** A message with all its fields set. */
    constructor Filled(reqLen: Option<u32>, respLen: Option<u32>, requestId: Option<u32>, info: Oneof,
                       trace: AppTrace?, protocolStr: Option<bytes>, isEnd: Option<bool>,
                       isAsync: Option<bool>, isReversed: Option<bool>, attributes: seq<KeyVal?>,
                       bizType: Option<u32>, bizCode: Option<bytes>, bizScenario: Option<bytes>,
                       bizResponseCode: Option<bytes>, unknownFields: bytes)
      ensures this.info == info && this.trace == trace && this.attributes == attributes
      ensures Value() == InfoMsg(reqLen, respLen, requestId, ArmValue(info), TraceValue(trace), protocolStr,
                                 isEnd, isAsync, isReversed, KeyValValues(attributes), bizType, bizCode,
                                 bizScenario, bizResponseCode, unknownFields)
    {
      this.reqLen, this.respLen, this.requestId, this.info := reqLen, respLen, requestId, info;
      this.trace, this.protocolStr, this.isEnd, this.isAsync := trace, protocolStr, isEnd, isAsync;
      this.isReversed, this.attributes, this.bizType := isReversed, attributes, bizType;
      this.bizCode, this.bizScenario := bizCode, bizScenario;
      this.bizResponseCode, this.unknownFields := bizResponseCode, unknownFields;
    }

    /** The nested messages that a decoder merges into. */
    function Merged(): set<object>
      reads this
    {
      (if trace == null then {} else {trace}) + ArmObject(info)
    }

    function Parts(): set<object>
      reads this
    {
      Merged() + set kv: KeyVal | kv in attributes
    }

    function Value(): InfoMsg
      reads this, Parts()
    {
      InfoMsg(reqLen, respLen, requestId, ArmValue(info), TraceValue(trace), protocolStr, isEnd, isAsync, isReversed,
              KeyValValues(attributes), bizType, bizCode, bizScenario, bizResponseCode, unknownFields)
    }

    method UnmarshalVT(dAtA: bytes) returns (err: Option<Error>)
      requires |dAtA| <= MAX_INT
      modifies this, Merged()
      ensures Outcome(Value(), err) == Decode(INFO, old(Value()), dAtA)
      ensures fresh(Merged() - old(Merged()))
    {
      hide Decode, Value;
      var iNdEx := 0;
      assert dAtA[0..] == dAtA;
      while iNdEx < |dAtA|
        invariant iNdEx <= |dAtA|
        invariant Decode(INFO, Value(), dAtA[iNdEx..]) == Decode(INFO, old(Value()), dAtA)
        invariant fresh(Merged() - old(Merged()))
        decreases |dAtA| - iNdEx
      {
        err, iNdEx := UnmarshalField(dAtA, iNdEx);
        if err.Some? {
          return;
        }
      }
      assert dAtA[iNdEx..] == [];
      DecodeNothing(INFO, Value());
      return None;
    }

    /** One turn of the loop: the record at iNdEx. */
    method UnmarshalField(dAtA: bytes, iNdEx: nat) returns (err: Option<Error>, next: nat)
      requires iNdEx < |dAtA| <= MAX_INT
      modifies this, Merged()
      ensures err == None ==> iNdEx < next <= |dAtA|
      ensures Decode(INFO, old(Value()), dAtA[iNdEx..])
           == if err.Some? then Outcome(Value(), err) else Decode(INFO, Value(), dAtA[next..])
      ensures fresh(Merged() - old(Merged()))
    {
      hide Decode, ReadRec, ReadTag, ReadDelim, ReadUnknown, ReadVarint, Truncate, ToI32;
      hide ArmValue, TraceValue, KeyValValues, DecodeReq, DecodeResp, DecodeTrace, DecodeAttribute;
      hide InfoVarint, InfoDelim;
      ghost var b := dAtA[iNdEx..];
      DecodeCases(INFO, Value(), b);
      var tag, body;
      err, tag, body := DecodeTag(dAtA, iNdEx);
      next := body;
      if err.Some? {
        return;
      }
      assert dAtA[body..] == b[body - iNdEx..];
      if 1 <= tag.num <= 3 || 21 <= tag.num <= 23 || tag.num == 32 {
        if tag.wireType != 0 {
          return Some(WrongWireType), body;
        }
        err, next := UnmarshalVarint(dAtA, body, tag.num);
      } else if 10 <= tag.num <= 13 || tag.num == 31 || 33 <= tag.num <= 35 {
        if tag.wireType != 2 {
          return Some(WrongWireType), body;
        }
        err, next := UnmarshalDelim(dAtA, body, tag.num);
      } else {
        var u;
        err, u, next := DecodeSkip(dAtA, iNdEx);
        if err == None {
          Keep(u);
        }
      }
      if err == None {
        assert dAtA[next..] == b[next - iNdEx..];
      }
    }

    method Keep(u: bytes)
      modifies this
      ensures Merged() == old(Merged())
      ensures Value() == INFO.keep(old(Value()), u)
    {
      hide ArmValue, TraceValue, KeyValValues;
      unknownFields := unknownFields + u;
    }

    /** The cases of the varint fields. */
    method UnmarshalVarint(dAtA: bytes, iNdEx: nat, fieldNum: int) returns (err: Option<Error>, next: nat)
      requires iNdEx <= |dAtA| && InfoKind(fieldNum) == VarintKind
      modifies this
      ensures Merged() == old(Merged())
      ensures match ReadVarint(dAtA[iNdEx..], 0)
              case Bad(e) => err == Some(e) && Value() == old(Value())
              case Ok(raw, n) =>
                && err == None && iNdEx < next == iNdEx + n <= |dAtA|
                && Value() == INFO.setVarint(old(Value()), fieldNum, raw)
    {
      hide ReadVarint, Truncate, ArmValue, TraceValue, KeyValValues;
      ReadVarintBounds(dAtA[iNdEx..], 0);
      var v;
      if fieldNum <= 3 || fieldNum == 32 {
        err, v, next := DecodeVarint(dAtA, iNdEx, Bits32);
        if err == None {
          StoreNumber(fieldNum, v);
        }
      } else {
        err, v, next := DecodeVarint(dAtA, iNdEx, INT_WIDTH);
        if err == None {
          StoreFlag(fieldNum, v != 0);
        }
      }
    }

    method StoreNumber(fieldNum: int, v: u32)
      requires 1 <= fieldNum <= 3 || fieldNum == 32
      modifies this
      ensures Merged() == old(Merged())
      ensures Value() == match fieldNum
                         case 1 => old(Value()).(reqLen := Some(v))
                         case 2 => old(Value()).(respLen := Some(v))
                         case 3 => old(Value()).(requestId := Some(v))
                         case _ => old(Value()).(bizType := Some(v))
    {
      hide ArmValue, TraceValue, KeyValValues;
      match fieldNum {
        case 1 => reqLen := Some(v);
        case 2 => respLen := Some(v);
        case 3 => requestId := Some(v);
        case _ => bizType := Some(v);
      }
    }

    method StoreFlag(fieldNum: int, v: bool)
      requires 21 <= fieldNum <= 23
      modifies this
      ensures Merged() == old(Merged())
      ensures Value() == match fieldNum
                         case 21 => old(Value()).(isEnd := Some(v))
                         case 22 => old(Value()).(isAsync := Some(v))
                         case _ => old(Value()).(isReversed := Some(v))
    {
      hide ArmValue, TraceValue, KeyValValues;
      match fieldNum {
        case 21 => isEnd := Some(v);
        case 22 => isAsync := Some(v);
        case _ => isReversed := Some(v);
      }
    }

    method StoreString(fieldNum: int, s: bytes)
      requires fieldNum == 13 || 33 <= fieldNum <= 35
      modifies this
      ensures Merged() == old(Merged())
      ensures Value() == match fieldNum
                         case 13 => old(Value()).(protocolStr := Some(s))
                         case 33 => old(Value()).(bizCode := Some(s))
                         case 34 => old(Value()).(bizScenario := Some(s))
                         case _ => old(Value()).(bizResponseCode := Some(s))
    {
      hide ArmValue, TraceValue, KeyValValues;
      match fieldNum {
        case 13 => protocolStr := Some(s);
        case 33 => bizCode := Some(s);
        case 34 => bizScenario := Some(s);
        case _ => bizResponseCode := Some(s);
      }
    }

    /** The cases of the length-delimited fields. */
    method UnmarshalDelim(dAtA: bytes, iNdEx: nat, fieldNum: int) returns (err: Option<Error>, next: nat)
      requires iNdEx <= |dAtA| <= MAX_INT && InfoKind(fieldNum) == DelimKind
      modifies this, Merged()
      ensures fresh(Merged() - old(Merged()))
      ensures match ReadDelim(dAtA[iNdEx..])
              case Bad(e) => err == Some(e) && Value() == old(Value())
              case Ok(data, n) =>
                && Outcome(Value(), err) == INFO.setDelim(old(Value()), fieldNum, data)
                && iNdEx < next == iNdEx + n <= |dAtA|
    {
      hide ReadDelim, Decode, ArmValue, TraceValue, KeyValValues, DecodeReq, DecodeResp, DecodeTrace, DecodeAttribute;
      var data;
      if fieldNum == 13 || fieldNum >= 33 {
        err, data, next := DecodeDelim(dAtA, iNdEx, Bits64);
        if err == None {
          StoreString(fieldNum, data);
        }
      } else {
        err, data, next := DecodeDelim(dAtA, iNdEx, INT_WIDTH);
        if err == None {
          if fieldNum == 10 {
            err := UnmarshalReq(data);
          } else if fieldNum == 11 {
            err := UnmarshalResp(data);
          } else if fieldNum == 12 {
            err := UnmarshalTrace(data);
          } else {
            err := UnmarshalAttribute(data);
          }
        }
      }
    }

    method UnmarshalReq(data: bytes) returns (err: Option<Error>)
      requires |data| <= MAX_INT
      modifies this, Merged()
      ensures Outcome(Value(), err) == DecodeReq(old(Value()), data)
      ensures fresh(Merged() - old(Merged()))
    {
      hide Decode, KeyValValues;
      if info.Req? {
        err := info.req.UnmarshalVT(data);
      } else {
        var v := new AppRequest();
        err := v.UnmarshalVT(data);
        if err == None {
          info := Req(v);
        }
      }
    }

    method UnmarshalResp(data: bytes) returns (err: Option<Error>)
      requires |data| <= MAX_INT
      modifies this, Merged()
      ensures Outcome(Value(), err) == DecodeResp(old(Value()), data)
      ensures fresh(Merged() - old(Merged()))
    {
      hide Decode, KeyValValues;
      if info.Resp? {
        err := info.resp.UnmarshalVT(data);
      } else {
        var v := new AppResponse();
        err := v.UnmarshalVT(data);
        if err == None {
          info := Resp(v);
        }
      }
    }

    method UnmarshalTrace(data: bytes) returns (err: Option<Error>)
      requires |data| <= MAX_INT
      modifies this, Merged()
      ensures Outcome(Value(), err) == DecodeTrace(old(Value()), data)
      ensures fresh(Merged() - old(Merged()))
    {
      hide Decode, KeyValValues;
      if trace == null {
        trace := new AppTrace();
      }
      err := trace.UnmarshalVT(data);
    }

    method UnmarshalAttribute(data: bytes) returns (err: Option<Error>)
      requires |data| <= MAX_INT
      modifies this
      ensures Outcome(Value(), err) == DecodeAttribute(old(Value()), data)
      ensures Merged() == old(Merged())
    {
      hide KeyValValues, Decode;
      ghost var before := KeyValValues(attributes);
      var kv := new KeyVal();
      err := kv.UnmarshalVT(data);
      assert KeyValValues(attributes) == before;
      AppendedValue(attributes, kv);
      attributes := attributes + [kv];
    }

    // -------------------------------------------------------------------------------------
    // Size and writers
    // -------------------------------------------------------------------------------------

    /** The size added up in an `int`. */
    method SizeVT() returns (n: int)
      ensures n == InfoSizeVT(Value())
    {
      hide ToInt, VarintSize, DelimSize, KeyValValues, KeyValValue, ArmSizeVT, TraceSizeVT, AttributesSizeVT;
      ghost var v := Value();
      n := AddLengths();
      ghost var t: int := VarintSize(1, RawU32(reqLen)) + VarintSize(1, RawU32(respLen))
                          + VarintSize(1, RawU32(requestId));
      n := AddArm(n, t);
      assert Value() == v;
      t := t + ArmSizeVT(v.arm);
      n := AddTrace(n, t);
      assert Value() == v;
      t := t + TraceSizeVT(v.trace);
      n := AddProtocolAndFlags(n, t);
      assert Value() == v;
      t := t + DelimSize(1, protocolStr) + (if isEnd.Some? then 3 else 0)
           + (if isAsync.Some? then 3 else 0) + (if isReversed.Some? then 3 else 0);
      n := AddAttributes(n, t);
      assert Value() == v;
      n := AddBizAndUnknown(n, t + AttributesSizeVT(v.attributes));
    }

    method AddLengths() returns (n: int)
      ensures n == ToInt(VarintSize(1, RawU32(reqLen)) + VarintSize(1, RawU32(respLen))
                         + VarintSize(1, RawU32(requestId)))
    {
      hide ToInt, Plus, VarintSize;
      PlusIsSum();
      n := 0;
      n := Plus(n, VarintSize(1, RawU32(reqLen)));
      n := Plus(n, VarintSize(1, RawU32(respLen)));
      n := Plus(n, VarintSize(1, RawU32(requestId)));
    }

    method AddProtocolAndFlags(before: int, ghost t: int) returns (n: int)
      requires before == ToInt(t)
      ensures n == ToInt(t + DelimSize(1, protocolStr) + (if isEnd.Some? then 3 else 0)
                         + (if isAsync.Some? then 3 else 0) + (if isReversed.Some? then 3 else 0))
    {
      hide ToInt, Plus, DelimSize;
      PlusIsSum();
      n := Plus(before, DelimSize(1, protocolStr));
      n := Plus(n, if isEnd.Some? then 3 else 0);
      n := Plus(n, if isAsync.Some? then 3 else 0);
      n := Plus(n, if isReversed.Some? then 3 else 0);
    }

    method AddBizAndUnknown(before: int, ghost t: int) returns (n: int)
      requires before == ToInt(t)
      ensures n == ToInt(t + VarintSize(2, RawU32(bizType)) + DelimSize(2, bizCode) + DelimSize(2, bizScenario)
                         + DelimSize(2, bizResponseCode) + |unknownFields|)
    {
      hide ToInt, Plus, VarintSize, DelimSize;
      PlusIsSum();
      n := Plus(before, VarintSize(2, RawU32(bizType)));
      n := Plus(n, DelimSize(2, bizCode));
      n := Plus(n, DelimSize(2, bizScenario));
      n := Plus(n, DelimSize(2, bizResponseCode));
      n := Plus(n, |unknownFields|);
    }

    /** `AppInfo_Req.SizeVT` and `AppInfo_Resp.SizeVT`, which add up in an `int` of their own. */
    method AddArm(before: int, ghost t: int) returns (n: int)
      requires before == ToInt(t)
      ensures n == ToInt(t + ArmSizeVT(ArmValue(info)))
    {
      hide EncRequest, EncResponse, SizeOfVarint, NestedSize, Plus, ToInt;
      PlusIsSum();
      n := before;
      var l;
      match info {
        case NoInfo =>
        case Req(req) =>
          l := req.SizeVT();
          l := Plus(0, NestedSize(1, l));
          PlusBack(t, ArmSizeVT(ArmValue(info)));
          n := Plus(n, l);
        case Resp(resp) =>
          l := resp.SizeVT();
          l := Plus(0, NestedSize(1, l));
          PlusBack(t, ArmSizeVT(ArmValue(info)));
          n := Plus(n, l);
      }
    }

    method AddTrace(before: int, ghost t: int) returns (n: int)
      requires before == ToInt(t)
      ensures n == ToInt(t + TraceSizeVT(TraceValue(trace)))
    {
      hide EncTrace, SizeOfVarint, NestedSize, Plus, ToInt;
      PlusIsSum();
      n := before;
      if trace != null {
        var l := trace.SizeVT();
        n := Plus(n, NestedSize(1, l));
      }
    }

    method AddAttributes(before: int, ghost t: int) returns (n: int)
      requires before == ToInt(t)
      ensures n == ToInt(t + AttributesSizeVT(KeyValValues(attributes)))
    {
      hide EncKeyVal, SizeOfVarint, NestedSize, KeyValValues, Plus, ToInt;
      PlusIsSum();
      n := before;
      ghost var kvs := KeyValValues(attributes);
      for i := 0 to |attributes|
        invariant n == ToInt(t + AttributesSizeVT(kvs[..i])) && kvs == KeyValValues(attributes)
      {
        var l := SizeOfKeyVal(attributes[i]);
        assert kvs[..i + 1][..i] == kvs[..i];
        n := Plus(n, NestedSize(2, l));
      }
      assert kvs[..|attributes|] == kvs;
    }

    /** Fills the end of dAtA[lo..hi] backwards: the unknown fields, the oneof, and the other
        fields from 35 down. Panics exactly when the slice is too short. */
    method MarshalToSizedBufferVT(dAtA: array<byte>, lo: nat, hi: nat) returns (n: Option<nat>)
      requires lo <= hi <= dAtA.Length <= MAX_INT
      modifies dAtA
      ensures n == Fits(lo, hi, EncInfo(old(Value())))
      ensures n.Some? ==> dAtA[hi - n.value..hi] == EncInfo(old(Value()))
      ensures Untouched(dAtA, lo, if n.Some? then hi - n.value else PANICKED, hi)
    {
      hide Written, EncRecs, LengthRecs, ArmRecs, TraceAndProtocolRecs, FlagRecs, AttributeRecs, BizRecs, InfoRecs;
      hide TraceValue, KeyValValues;
      ghost var v := Value();
      ghost var r1 := BizRecs(v) + ArmRecs(v.arm);
      ghost var r2 := AttributeRecs(v) + r1;
      ghost var r3 := FlagRecs(v) + r2;
      ghost var r4 := TraceAndProtocolRecs(v) + r3;
      WriteOrder(v);
      assert ArmRecs(v.arm) + [] == ArmRecs(v.arm);
      var i := PutUnknown(dAtA, lo, hi, unknownFields);
      i := PutArm(dAtA, lo, i, hi, info, v, [], v.unknown);
      i := PutBiz(dAtA, lo, i, hi, bizType, bizCode, bizScenario, bizResponseCode, v, ArmRecs(v.arm), v.unknown);
      i := PutAttributes(dAtA, lo, i, hi, attributes, v, r1, v.unknown);
      i := PutFlags(dAtA, lo, i, hi, isEnd, isAsync, isReversed, v, r2, v.unknown);
      i := PutTraceAndProtocol(dAtA, lo, i, hi, trace, protocolStr, v, r3, v.unknown);
      i := PutLengths(dAtA, lo, i, hi, reqLen, respLen, requestId, v, r4, v.unknown);
      Finished(dAtA, lo, i, hi, EncInfo(v));
      n := Reported(hi, i);
    }

    /** The same fields in the order of their numbers: the oneof before the trace. */
    method MarshalToSizedBufferVTStrict(dAtA: array<byte>, lo: nat, hi: nat) returns (n: Option<nat>)
      requires lo <= hi <= dAtA.Length <= MAX_INT
      modifies dAtA
      ensures n == Fits(lo, hi, EncInfoStrict(old(Value())))
      ensures n.Some? ==> dAtA[hi - n.value..hi] == EncInfoStrict(old(Value()))
      ensures Untouched(dAtA, lo, if n.Some? then hi - n.value else PANICKED, hi)
    {
      hide Written, EncRecs, LengthRecs, ArmRecs, TraceAndProtocolRecs, FlagRecs, AttributeRecs, BizRecs, StrictRecs;
      hide TraceValue, KeyValValues;
      ghost var v := Value();
      ghost var r2 := AttributeRecs(v) + BizRecs(v);
      ghost var r3 := FlagRecs(v) + r2;
      ghost var r4 := TraceAndProtocolRecs(v) + r3;
      ghost var r5 := ArmRecs(v.arm) + r4;
      StrictOrder(v);
      var i := PutUnknown(dAtA, lo, hi, unknownFields);
      i := PutBiz(dAtA, lo, i, hi, bizType, bizCode, bizScenario, bizResponseCode, v, [], v.unknown);
      i := PutAttributes(dAtA, lo, i, hi, attributes, v, BizRecs(v), v.unknown);
      i := PutFlags(dAtA, lo, i, hi, isEnd, isAsync, isReversed, v, r2, v.unknown);
      i := PutTraceAndProtocol(dAtA, lo, i, hi, trace, protocolStr, v, r3, v.unknown);
      i := PutArm(dAtA, lo, i, hi, info, v, r4, v.unknown);
      i := PutLengths(dAtA, lo, i, hi, reqLen, respLen, requestId, v, r5, v.unknown);
      Finished(dAtA, lo, i, hi, EncInfoStrict(v));
      n := Reported(hi, i);
    }

    /** Writes the message to the front of dAtA[lo..hi], and panics exactly when it is too
        short: a size that has wrapped around is too small for what is written. */
    method MarshalToVT(dAtA: array<byte>, lo: nat, hi: nat) returns (n: Option<nat>)
      requires lo <= hi <= dAtA.Length <= MAX_INT
      modifies dAtA
      ensures n == Fits(lo, hi, EncInfo(old(Value())))
      ensures n.Some? ==> dAtA[lo..lo + n.value] == EncInfo(old(Value()))
      ensures Untouched(dAtA, lo, lo, hi)
    {
      hide EncInfo, InfoSizeVT, KeyValValues, TraceValue;
      ghost var v := Value();
      var size := SizeVT();
      if |EncInfo(v)| <= MAX_INT { InfoSizeVTExact(v); }
      if size < 0 || size > hi - lo {
        return None;
      }
      n := MarshalToSizedBufferVT(dAtA, lo, lo + size);
    }

    /** A slice of `SizeVT` bytes is filled to its start, for every message whose encoding
        fits a slice at all; for a longer one the allocation or the writer panics. */
    method MarshalVT() returns (dAtA: array?<byte>)
      ensures dAtA != null <==> |EncInfo(Value())| <= MAX_INT
      ensures dAtA != null ==> fresh(dAtA) && dAtA[..] == EncInfo(Value())
    {
      hide EncInfo, InfoSizeVT, KeyValValues, TraceValue;
      ghost var v := Value();
      var size := SizeVT();
      if |EncInfo(v)| <= MAX_INT { InfoSizeVTExact(v); }
      if size < 0 {
        return null;
      }
      dAtA := new byte[size](_ => 0);
      assert Value() == v;
      var n := MarshalToSizedBufferVT(dAtA, 0, size);
      if n.None? {
        return null;
      }
      assert dAtA[..] == dAtA[size - n.value..size];
    }

    /** So is it by the strict writer. */
    method MarshalVTStrict() returns (dAtA: array?<byte>)
      ensures dAtA != null <==> |EncInfo(Value())| <= MAX_INT
      ensures dAtA != null ==> fresh(dAtA) && dAtA[..] == EncInfoStrict(Value())
    {
      hide EncInfo, EncInfoStrict, InfoRecs, StrictRecs, InfoSizeVT, KeyValValues, TraceValue;
      ghost var v := Value();
      var size := SizeVT();
      if |EncInfo(v)| <= MAX_INT { InfoSizeVTExact(v); }
      assert |EncInfoStrict(v)| == |EncInfo(v)| by { StrictIsPermutation(v); }
      if size < 0 {
        return null;
      }
      dAtA := new byte[size](_ => 0);
      assert Value() == v;
      var n := MarshalToSizedBufferVTStrict(dAtA, 0, size);
      if n.None? {
        return null;
      }
      assert dAtA[..] == dAtA[size - n.value..size];
    }

    // -------------------------------------------------------------------------------------
    // Comparison and copy
    // -------------------------------------------------------------------------------------

    method EqualVT(that: AppInfo) returns (r: bool)
      ensures r <==> Value() == that.Value()
    {
      if this == that {
        return true;
      }
      match (info, that.info) {
        case (NoInfo, NoInfo) =>
        case (Req(p), Req(q)) => if !p.EqualVT(q) { return false; }
        case (Resp(p), Resp(q)) => if !p.EqualVT(q) { return false; }
        case _ => return false;
      }
      if reqLen != that.reqLen { return false; }
      if respLen != that.respLen { return false; }
      if requestId != that.requestId { return false; }
      if trace != that.trace {
        if trace == null || that.trace == null { return false; }
        var same := trace.EqualVT(that.trace);
        if !same { return false; }
      }
      if protocolStr != that.protocolStr { return false; }
      if isEnd != that.isEnd || isAsync != that.isAsync || isReversed != that.isReversed { return false; }
      var same := EqualAttributes(that);
      if !same { return false; }
      if bizType != that.bizType || bizCode != that.bizCode { return false; }
      if bizScenario != that.bizScenario || bizResponseCode != that.bizResponseCode { return false; }
      return unknownFields == that.unknownFields;
    }

    /** The loop over the attributes; nil ones compare as empty ones. */
    method EqualAttributes(that: AppInfo) returns (r: bool)
      ensures r <==> KeyValValues(attributes) == KeyValValues(that.attributes)
    {
      if |attributes| != |that.attributes| {
        return false;
      }
      for i := 0 to |attributes|
        invariant forall k :: 0 <= k < i ==> KeyValValue(attributes[k]) == KeyValValue(that.attributes[k])
      {
        var p, q := attributes[i], that.attributes[i];
        if p != q {
          if p == null { p := new KeyVal(); }
          if q == null { q := new KeyVal(); }
          if !p.EqualVT(q) {
            assert KeyValValues(attributes)[i] != KeyValValues(that.attributes)[i];
            return false;
          }
        }
      }
      return true;
    }

    /** A copy that shares no object with the original. */
    method CloneVT() returns (r: AppInfo)
      ensures fresh(r) && fresh(r.Parts()) && r.Value() == Value()
    {
      hide KeyValValues, KeyValValue;
      ghost var v := Value();
      var t, arm, copies := CloneParts(trace, info, attributes);
      assert v == Value();
      r := new AppInfo.Filled(reqLen, respLen, requestId, arm, t, protocolStr, isEnd, isAsync, isReversed, copies,
                              bizType, bizCode, bizScenario, bizResponseCode, unknownFields);
    }
  }

  method CloneParts(trace: AppTrace?, info: Oneof, attributes: seq<KeyVal?>)
    returns (t: AppTrace?, arm: Oneof, copies: seq<KeyVal?>)
    ensures (t != null ==> fresh(t)) && fresh(ArmObject(arm)) && forall kv: KeyVal :: kv in copies ==> fresh(kv)
    ensures TraceValue(t) == old(TraceValue(trace)) && ArmValue(arm) == old(ArmValue(info))
    ensures KeyValValues(copies) == old(KeyValValues(attributes))
  {
    hide KeyValValues, KeyValValue;
    ghost var a, kvs := ArmValue(info), KeyValValues(attributes);
    copies := CloneAttributes(attributes);
    assert ArmValue(info) == a;
    t := CloneTrace(trace);
    assert ArmValue(info) == a && KeyValValues(copies) == kvs;
    arm := CloneArm(info);
    assert KeyValValues(copies) == kvs;
  }

  method CloneTrace(trace: AppTrace?) returns (t: AppTrace?)
    ensures (t != null ==> fresh(t)) && TraceValue(t) == TraceValue(trace)
  {
    t := null;
    if trace != null {
      t := trace.CloneVT();
    }
  }

  method CloneArm(info: Oneof) returns (c: Oneof)
    ensures fresh(ArmObject(c)) && ArmValue(c) == ArmValue(info)
  {
    c := NoInfo;
    match info {
      case NoInfo =>
      case Req(req) => var r := req.CloneVT(); c := Req(r);
      case Resp(resp) => var r := resp.CloneVT(); c := Resp(r);
    }
  }

  method CloneAttributes(attributes: seq<KeyVal?>) returns (copies: seq<KeyVal?>)
    ensures forall kv: KeyVal :: kv in copies ==> fresh(kv)
    ensures KeyValValues(copies) == KeyValValues(attributes)
  {
    copies := [];
    for k := 0 to |attributes|
      invariant |copies| == k && forall kv: KeyVal :: kv in copies ==> fresh(kv)
      invariant forall j :: 0 <= j < k ==> KeyValValue(copies[j]) == KeyValValue(attributes[j])
    {
      var copy: KeyVal? := null;
      if attributes[k] != null {
        copy := attributes[k].CloneVT();
      }
      copies := copies + [copy];
    }
  }
}
