/** `serializeL7ProtocolInfo`: projecting a plugin's infos to messages and framing them. */
module Serde {
  import opened Machine
  import opened Varint
  import opened BigEndian
  import opened Codec
  import opened Messages
  import opened RoundTrip
  import opened Buffers
  import opened Sizes
  import opened AppRequests
  import opened AppResponses
  import opened AppTraces
  import opened KeyVals
  import opened AppInfos
  import opened Plugin
  import opened Framing
  import opened Context

  // ---------------------------------------------------------------------------------------
  // The projection
  // ---------------------------------------------------------------------------------------

  /** `uint32(x)` of an `int`. */
  function U32Of(o: Option<int>): Option<u32> {
    if o.None? then None else Some(o.value % TWO_32)
  }

  /** The status enum of the protocol; an unmapped status leaves the zero value, RESP_OK. */
  function StatusOf(o: Option<u8>): i32 {
    match o
    case None => 5
    case Some(s) => if s == 0 then 0 else if s == 2 then 2 else if s == 3 then 3 else if s == 4 then 4
                    else if s == 5 then 5 else 0
  }

  function RequestOf(r: Request): RequestMsg {
    RequestMsg(Some(r.version), Some(r.reqType), Some(r.domain), Some(r.resource), Some(r.endpoint), [])
  }

  function ResponseOf(r: Response): ResponseMsg
    reads r
  {
    ResponseMsg(Some(StatusOf(r.status)), r.code, Some(r.exception), Some(r.result), Some(r.reqType),
                Some(r.endpoint), [])
  }

  function TraceOf(t: Trace): TraceMsg {
    TraceMsg(Some(t.traceId), Some(t.spanId), Some(t.parentSpanId), Some(t.xRequestId), Some(t.httpProxyClient),
             t.traceIds, [])
  }

  /** A request wins unless there is a response as well and the direction is not c2s; a
      response wins unless there is a request as well and the direction is not s2c. */
  function ArmOf(req: Option<Request>, resp: Response?, direction: u8): Arm
    reads resp
  {
    if req.Some? && (resp == null || direction == DIRECTION_REQUEST) then ReqArm(RequestOf(req.value))
    else if resp != null && (req.None? || direction == DIRECTION_RESPONSE) then RespArm(ResponseOf(resp))
    else NoArm
  }

  function AttributesOf(kv: seq<Pair>): (vs: seq<KeyValMsg>)
    ensures |vs| == |kv| && forall k :: 0 <= k < |kv| ==> vs[k] == KeyValMsg(kv[k].key, kv[k].val, [])
  {
    seq(|kv|, k requires 0 <= k < |kv| => KeyValMsg(kv[k].key, kv[k].val, []))
  }

  /** What is left of an info: `ProtocolMerge` and `IsEnd` are not. */
  function Project(info: L7ProtocolInfo, direction: u8): InfoMsg
    reads info.resp
  {
    InfoMsg(U32Of(info.reqLen), U32Of(info.respLen), info.requestId, ArmOf(info.req, info.resp, direction),
            if info.trace.None? then None else Some(TraceOf(info.trace.value)), Some(info.l7ProtocolStr),
            None, info.isAsync, info.isReversed, AttributesOf(info.kv), Some(info.bizType), Some(info.bizCode),
            Some(info.bizScenario), Some(info.bizResponseCode), [])
  }

  function Projected(infos: seq<L7ProtocolInfo>, direction: u8): (ms: seq<InfoMsg>)
    reads set info | info in infos && info.resp != null :: info.resp
    ensures |ms| == |infos| && forall k :: 0 <= k < |infos| ==> ms[k] == Project(infos[k], direction)
    decreases |infos|
  {
    if infos == [] then [] else [Project(infos[0], direction)] + Projected(infos[1..], direction)
  }

  lemma ProjectedWf(infos: seq<L7ProtocolInfo>, direction: u8)
    ensures forall m :: m in Projected(infos, direction) ==> InfoWf(m)
  {
    forall m | m in Projected(infos, direction) ensures InfoWf(m) {
      var k :| 0 <= k < |infos| && m == Project(infos[k], direction);
    }
  }

  /** With a direction the host can send, an info with a request or a response keeps one of
      them, and with both the direction decides. */
  lemma ArmByDirection(info: L7ProtocolInfo, direction: u8)
    requires direction == DIRECTION_REQUEST || direction == DIRECTION_RESPONSE
    ensures var a := Project(info, direction).arm;
            && (a == NoArm <==> info.req.None? && info.resp == null)
            && (a.ReqArm? <==> info.req.Some? && !(info.resp != null && direction == DIRECTION_RESPONSE))
            && (a.RespArm? <==> info.resp != null && !(info.req.Some? && direction == DIRECTION_REQUEST))
  {
  }

  /** What the projection loses, for infos without a response: `ProtocolMerge`, `IsEnd`, and
      the lengths beyond 32 bits. Nothing else. */
  lemma ProjectionForgets(a: L7ProtocolInfo, b: L7ProtocolInfo, direction: u8)
    requires a.resp == null == b.resp
    ensures Project(a, direction) == Project(b, direction) <==>
            && U32Of(a.reqLen) == U32Of(b.reqLen) && U32Of(a.respLen) == U32Of(b.respLen)
            && a == b.(reqLen := a.reqLen, respLen := a.respLen, protocolMerge := a.protocolMerge, isEnd := a.isEnd)
  {
    if AttributesOf(a.kv) == AttributesOf(b.kv) {
      forall k | 0 <= k < |a.kv| ensures a.kv[k] == b.kv[k] {
        assert AttributesOf(a.kv)[k] == AttributesOf(b.kv)[k];
      }
      assert a.kv == b.kv;
    }
  }

  /** The host gets the projections: whatever is serialized splits into one frame per info,
      in order, and each body decodes to the projection of its info. */
  lemma {:induction false} HostReadsProjections(infos: seq<L7ProtocolInfo>, direction: u8)
    requires Serialized(Projected(infos, direction)).Stream?
    ensures var bodies := SplitFrames(Serialized(Projected(infos, direction)).data);
            && bodies.Some? && |bodies.value| == |infos|
            && forall k :: 0 <= k < |infos| ==>
                 && |bodies.value[k]| >= 2 && bodies.value[k][..2] == MAGIC
                 && Decode(INFO, NO_INFO, bodies.value[k][2..]) == Outcome(Project(infos[k], direction), None)
  {
    hide Serialized, InfoWf, SplitFrames, Decode, ArmOf, AttributesOf, TraceOf, U32Of;
    ProjectedWf(infos, direction);
    StreamMeansRoom(Projected(infos, direction));
    StreamRoundTrip(Projected(infos, direction));
  }

  // ---------------------------------------------------------------------------------------
  // What the host reads
  // ---------------------------------------------------------------------------------------

  /** The message m says of a request what the plugin said. */
  predicate CarriesRequest(r: Request, m: RequestMsg) {
    && m.version == Some(r.version) && m.type_ == Some(r.reqType) && m.domain == Some(r.domain)
    && m.resource == Some(r.resource) && m.endpoint == Some(r.endpoint) && m.unknown == []
  }

  /** And of a response, its status by the table of the protocol: ok, timeout, server error,
      client error and unknown; a missing one is unknown, any other one ok. */
  predicate CarriesResponse(r: Response, m: ResponseMsg)
    reads r
  {
    && m.status == Some(if r.status == None || r.status == Some(5) then 5
                        else if r.status == Some(2) then 2
                        else if r.status == Some(3) then 3
                        else if r.status == Some(4) then 4
                        else 0)
    && m.code == r.code && m.exception == Some(r.exception) && m.result == Some(r.result)
    && m.type_ == Some(r.reqType) && m.endpoint == Some(r.endpoint) && m.unknown == []
  }

  predicate CarriesTrace(t: Trace, m: TraceMsg) {
    && m.traceId == Some(t.traceId) && m.spanId == Some(t.spanId) && m.parentSpanId == Some(t.parentSpanId)
    && m.xRequestId == Some(t.xRequestId) && m.httpProxyClient == Some(t.httpProxyClient)
    && m.traceIds == t.traceIds && m.unknown == []
  }

  /** The message m says of the info what the plugin said, field by field. A request is kept
      unless there is a response as well and the direction is not 0, a response unless there
      is a request as well and the direction is not 1. */
  predicate Carries(info: L7ProtocolInfo, direction: u8, m: InfoMsg)
    reads info.resp
  {
    && m.reqLen == (if info.reqLen.None? then None else Some(info.reqLen.value % 0x1_0000_0000))
    && m.respLen == (if info.respLen.None? then None else Some(info.respLen.value % 0x1_0000_0000))
    && m.requestId == info.requestId && m.isAsync == info.isAsync && m.isReversed == info.isReversed && m.isEnd == None
    && (if info.req.Some? && (info.resp == null || direction == 0) then
          m.arm.ReqArm? && CarriesRequest(info.req.value, m.arm.req)
        else if info.resp != null && (info.req.None? || direction == 1) then
          m.arm.RespArm? && CarriesResponse(info.resp, m.arm.resp)
        else m.arm.NoArm?)
    && (if info.trace.None? then m.trace == None else m.trace.Some? && CarriesTrace(info.trace.value, m.trace.value))
    && m.protocolStr == Some(info.l7ProtocolStr)
    && |m.attributes| == |info.kv|
    && (forall j :: 0 <= j < |info.kv| ==>
          && m.attributes[j].key == info.kv[j].key && m.attributes[j].val == info.kv[j].val
          && m.attributes[j].unknown == [])
    && m.bizType == Some(info.bizType) && m.bizCode == Some(info.bizCode) && m.bizScenario == Some(info.bizScenario)
    && m.bizResponseCode == Some(info.bizResponseCode) && m.unknown == []
  }

  /** The stream splits into one body per info, in order; each starts with "PB" and decodes to
      what its info says. */
  ghost predicate HostReads(data: bytes, infos: seq<L7ProtocolInfo>, direction: u8)
    reads set info | info in infos && info.resp != null :: info.resp
  {
    var bodies := SplitFrames(data);
    && bodies.Some? && |bodies.value| == |infos|
    && forall k :: 0 <= k < |infos| ==> HostReadsInfo(bodies.value[k], infos[k], direction)
  }

  ghost predicate HostReadsInfo(body: bytes, info: L7ProtocolInfo, direction: u8)
    reads info.resp
  {
    && |body| >= 2 && body[..2] == [0x50, 0x42]
    && Decode(INFO, NO_INFO, body[2..]).err == None
    && Carries(info, direction, Decode(INFO, NO_INFO, body[2..]).msg)
  }

  /** The projection carries every field to where it belongs. */
  lemma ProjectCarries(info: L7ProtocolInfo, direction: u8)
    ensures Carries(info, direction, Project(info, direction))
  {
  }

  lemma StreamCarries(infos: seq<L7ProtocolInfo>, direction: u8)
    requires Serialized(Projected(infos, direction)).Stream?
    ensures HostReads(Serialized(Projected(infos, direction)).data, infos, direction)
  {
    hide Serialized, SplitFrames, Decode, Carries, Project;
    HostReadsProjections(infos, direction);
    forall k | 0 <= k < |infos| ensures Carries(infos[k], direction, Project(infos[k], direction)) {
      ProjectCarries(infos[k], direction);
    }
  }

  // ---------------------------------------------------------------------------------------
  // The serializer
  // ---------------------------------------------------------------------------------------

  /** The message built for one info. */
  method BuildMessage(info: L7ProtocolInfo, direction: u8) returns (msg: AppInfo)
    ensures fresh(msg) && fresh(msg.Parts()) && msg.Value() == Project(info, direction)
    ensures Carries(info, direction, msg.Value())
  {
    hide KeyValValues, KeyValValue, ArmOf, Carries;
    var arm, trace, attributes := BuildParts(info, direction);
    msg := new AppInfo.Filled(U32Of(info.reqLen), U32Of(info.respLen), info.requestId, arm, trace,
                              Some(info.l7ProtocolStr), None, info.isAsync, info.isReversed, attributes,
                              Some(info.bizType), Some(info.bizCode), Some(info.bizScenario),
                              Some(info.bizResponseCode), []);
    ProjectCarries(info, direction);
  }

  method BuildParts(info: L7ProtocolInfo, direction: u8)
    returns (arm: Oneof, trace: AppTrace?, attributes: seq<KeyVal?>)
    ensures fresh(ArmObject(arm)) && (trace != null ==> fresh(trace))
    ensures forall a: KeyVal :: a in attributes ==> fresh(a)
    ensures ArmValue(arm) == ArmOf(info.req, info.resp, direction)
    ensures TraceValue(trace) == if info.trace.None? then None else Some(TraceOf(info.trace.value))
    ensures KeyValValues(attributes) == AttributesOf(info.kv)
  {
    hide KeyValValues, KeyValValue, ArmOf;
    ghost var a := ArmOf(info.req, info.resp, direction);
    attributes := BuildAttributes(info.kv);
    assert ArmOf(info.req, info.resp, direction) == a;
    trace := BuildTrace(info.trace);
    assert ArmOf(info.req, info.resp, direction) == a && KeyValValues(attributes) == AttributesOf(info.kv);
    arm := BuildArm(info.req, info.resp, direction);
    assert KeyValValues(attributes) == AttributesOf(info.kv);
  }

  method BuildArm(req: Option<Request>, resp: Response?, direction: u8) returns (arm: Oneof)
    ensures fresh(ArmObject(arm)) && ArmValue(arm) == ArmOf(req, resp, direction)
  {
    arm := NoInfo;
    if req.Some? && (resp == null || direction == DIRECTION_REQUEST) {
      var r := req.value;
      var m := new AppRequest.Filled(Some(r.version), Some(r.reqType), Some(r.domain), Some(r.resource),
                                     Some(r.endpoint));
      arm := Req(m);
    } else if resp != null && (req.None? || direction == DIRECTION_RESPONSE) {
      var status: i32 := 0;
      if resp.status == None {
        status := 5;
      } else {
        match resp.status.value {
          case 0 => status := 0;
          case 2 => status := 2;
          case 3 => status := 3;
          case 4 => status := 4;
          case 5 => status := 5;
          case _ =>
        }
      }
      var m := new AppResponse.Filled(Some(status), resp.code, Some(resp.exception), Some(resp.result),
                                      Some(resp.reqType), Some(resp.endpoint));
      arm := Resp(m);
    }
  }

  method BuildTrace(trace: Option<Trace>) returns (m: AppTrace?)
    ensures m != null ==> fresh(m)
    ensures TraceValue(m) == if trace.None? then None else Some(TraceOf(trace.value))
  {
    m := null;
    if trace.Some? {
      var t := trace.value;
      m := new AppTrace.Filled(Some(t.traceId), Some(t.spanId), Some(t.parentSpanId), Some(t.xRequestId),
                               Some(t.httpProxyClient), t.traceIds);
    }
  }

  method BuildAttributes(kv: seq<Pair>) returns (attributes: seq<KeyVal?>)
    ensures forall a: KeyVal :: a in attributes ==> fresh(a)
    ensures KeyValValues(attributes) == AttributesOf(kv)
  {
    attributes := [];
    for k := 0 to |kv|
      invariant |attributes| == k && forall a: KeyVal :: a in attributes ==> fresh(a)
      invariant forall j :: 0 <= j < k ==> KeyValValue(attributes[j]) == KeyValMsg(kv[j].key, kv[j].val, [])
    {
      var a := new KeyVal.Filled(kv[k].key, kv[k].val);
      attributes := attributes + [a];
    }
  }

  /** `binary.BigEndian.PutUint16` and the magic, in the four bytes left before a message. */
  method PutFrameHead(buf: array<byte>, start: nat, len: u16)
    requires start + 4 <= buf.Length
    modifies buf
    ensures buf[start..start + 4] == EncBE(len, 2) + MAGIC
    ensures forall k :: 0 <= k < buf.Length && !(start <= k < start + 4) ==> buf[k] == old(buf[k])
  {
    var prefix := EncBE(len, 2);
    buf[start], buf[start + 1] := prefix[0], prefix[1];
    buf[start + 2], buf[start + 3] := MAGIC[0], MAGIC[1];
    assert buf[start..start + 4] == [prefix[0], prefix[1]] + MAGIC && prefix == [prefix[0], prefix[1]];
  }

  /** The head in front of a message that has been written. */
  method CompleteFrame(buf: array<byte>, start: nat, serSize: nat, ghost m: InfoMsg)
    requires start + 4 + serSize <= buf.Length && serSize + 2 < TWO_16
    requires serSize == |EncInfo(m)| && buf[start + 4..start + 4 + serSize] == EncInfo(m)
    modifies buf
    ensures buf[start..start + 4 + serSize] == Frame(m)
    ensures forall k :: 0 <= k < buf.Length && !(start <= k < start + 4) ==> buf[k] == old(buf[k])
  {
    hide EncInfo, EncBE;
    ghost var next := start + 4 + serSize;
    PutFrameHead(buf, start, serSize + 2);
    assert buf[start + 4..next] == EncInfo(m);
    assert buf[start..next] == buf[start..start + 4] + buf[start + 4..next];
  }

  /** How one frame ends: written, refused by the length check, or with a panic behind it. */
  datatype Placed = At(next: nat) | TooLarge | Overrun

  /** What becomes of the frame of m at `off`. */
  function Placement(off: nat, m: InfoMsg): Placed {
    if off + 4 + |EncInfo(m)| <= BUF_SIZE then At(off + 4 + |EncInfo(m)|)
    else if PassesCheck(off + 4, m) then Overrun
    else TooLarge
  }

  /** One frame at `off`. The check is in `int` arithmetic; what it lets through although there
      is no room panics in the slice expressions or in the writer. */
  method PutFrame(buf: array<byte>, off: nat, msg: AppInfo) returns (r: Placed)
    requires buf.Length == BUF_SIZE && off <= BUF_SIZE
    modifies buf
    ensures r == Placement(off, old(msg.Value()))
    ensures r.At? ==> buf[off..r.next] == Frame(old(msg.Value()))
    ensures forall k :: 0 <= k < off ==> buf[k] == old(buf[k])
  {
    hide EncInfo, Frame, InfoSizeVT, KeyValValues, TraceValue;
    ghost var m := msg.Value();
    var start := off;
    var next := off + 4;
    var serSize := msg.SizeVT();
    if next + |EncInfo(m)| <= BUF_SIZE { CheckIsExact(next, m); }
    if Plus(next, serSize) > buf.Length {
      return TooLarge;
    }
    if next > buf.Length {
      return Overrun;
    }
    var n := msg.MarshalToVT(buf, next, buf.Length);
    if n.None? {
      return Overrun;
    }
    InfoSizeVTExact(m);
    next := next + serSize;
    CompleteFrame(buf, start, serSize, m);
    r := At(next);
  }

  /** All infos framed into one page, or none. */
  method SerializeL7ProtocolInfo(infos: seq<L7ProtocolInfo>, direction: u8) returns (r: Serialization)
    ensures r == Serialized(old(Projected(infos, direction)))
    ensures r.Stream? ==> HostReads(r.data, infos, direction)
  {
    hide Room, Frames, PassesCheck, ArmOf, AttributesOf, TraceOf, U32Of, HostReads;
    ghost var ms := Projected(infos, direction);
    Capacity(ms);
    var buf := new byte[BUF_SIZE](_ => 0);
    var p := PutInfos(buf, infos, direction, ms);
    assert forall k :: 0 <= k < |infos| ==> Project(infos[k], direction) == ms[k];
    assert Projected(infos, direction) == ms;
    if Serialized(ms).Stream? { StreamCarries(infos, direction); }
    match p {
      case At(off) => r := Stream(buf[..off]);
      case TooLarge => r := Refused;
      case Overrun => r := Crashed;
    }
  }

  /** The loop over the infos. */
  method PutInfos(buf: array<byte>, infos: seq<L7ProtocolInfo>, direction: u8, ghost ms: seq<InfoMsg>)
    returns (p: Placed)
    requires buf.Length == BUF_SIZE
    requires |ms| == |infos| && forall j :: 0 <= j < |infos| ==> Project(infos[j], direction) == ms[j]
    modifies buf
    ensures p.At? <==> Room(ms) <= BUF_SIZE
    ensures p.At? ==> p.next <= BUF_SIZE && buf[..p.next] == Frames(ms)
    ensures !p.At? ==> exists k: nat :: IsFirstMisfit(ms, k) && (p.Overrun? <==> PassesCheck(Room(ms[..k]) + 4, ms[k]))
  {
    hide EncInfo, Frame, Frames, Room, PassesCheck, ArmOf, AttributesOf, TraceOf, U32Of;
    var off := 0;
    assert ms[..0] == [];
    NoFrames();
    for k := 0 to |infos|
      invariant off <= BUF_SIZE
      invariant forall j :: 0 <= j < |infos| ==> Project(infos[j], direction) == ms[j]
      invariant off == Room(ms[..k]) && buf[..off] == Frames(ms[..k])
    {
      FramesOne(ms, k);
      p := PutInfo(buf, off, infos[k], direction);
      if !p.At? {
        assert IsFirstMisfit(ms, k);
        return;
      }
      off := p.next;
    }
    assert ms[..|infos|] == ms;
    p := At(off);
  }

  method PutInfo(buf: array<byte>, off: nat, info: L7ProtocolInfo, direction: u8) returns (p: Placed)
    requires buf.Length == BUF_SIZE && off <= BUF_SIZE
    modifies buf
    ensures p == Placement(off, Project(info, direction))
    ensures p.At? ==> buf[..p.next] == old(buf[..off]) + Frame(Project(info, direction))
  {
    hide EncInfo, Frame, PassesCheck;
    var msg := BuildMessage(info, direction);
    ghost var done := buf[..off];
    p := PutFrame(buf, off, msg);
    if p.At? {
      assert buf[..off] == done;
      assert buf[..p.next] == buf[..off] + buf[off..p.next];
    }
  }

  lemma NoFrames()
    ensures Frames([]) == [] && Room([]) == 0
  {
  }

  // ---------------------------------------------------------------------------------------
  // A size that wraps around
  // ---------------------------------------------------------------------------------------

  /** An info with 40000 attributes that share one value of 64 KiB. */
  function ManyShared(big: bytes): L7ProtocolInfo {
    NO_L7_INFO.(kv := seq(40000, _ => Pair([], big)))
  }

  lemma ManySharedSize(big: bytes, direction: u8)
    requires |big| == 65536
    ensures var m := Project(ManyShared(big), direction);
            |EncInfo(m)| == 2621800014 && InfoSizeVT(m) == ToInt(2621800014)
  {
    hide EncRecs, SizeOfVarint, AttributesSizeVT, ToInt, EncKeyVals, Repeated;
    var m := Project(ManyShared(big), direction);
    assert m == NO_INFO.(protocolStr := Some([]), attributes := m.attributes, bizType := Some(0), bizCode := Some([]),
                         bizScenario := Some([]), bizResponseCode := Some([]));
    forall kv | kv in m.attributes ensures kv.key == [] && |kv.val| == 65536 && kv.unknown == [] {
      var k :| 0 <= k < |m.attributes| && m.attributes[k] == kv;
    }
    InfoSize(m);
    LengthSize(m);
    TraceAndProtocolSize(m);
    FlagSize(m);
    BizSize(m);
    ManyAttributes(m.attributes);
    LengthsOfExample();
    NoRecs();
  }

  /** Where an `int` has 32 bits the serializer lets such an info through its length check and
      panics; where it has 64 it returns nil. */
  lemma SizeWraps(big: bytes, direction: u8)
    requires |big| == 65536
    ensures Serialized(Projected([ManyShared(big)], direction)) == if INT_WIDTH.Bits32? then Crashed else Refused
  {
    hide EncInfo, InfoSizeVT, ManyShared;
    var ms := Projected([ManyShared(big)], direction);
    ManySharedSize(big, direction);
    Capacity(ms);
    assert ms[..0] == [] && ms[..1] == ms && ms[1..] == [];
    NoFrames();
    assert IsFirstMisfit(ms, 0);
  }
}
