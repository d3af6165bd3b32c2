/**
 The exported functions of sdk/abi_export.go: decode what the host wrote, ask the plugin, and
 hand back what it answered. The plugin is any function from contexts to actions.
 */
module Host {
  import opened Machine
  import opened Codec
  import opened Messages
  import opened Plugin
  import opened Context
  import opened HttpContext
  import opened Framing
  import opened Serde

  /** How a call ends: with a panic, or with the abort flag and perhaps some bytes for the host. */
  datatype HostCall = Trapped | Returned(abort: bool, sent: Option<bytes>)

  const IGNORED := Returned(false, None)

  /** What the plugin answers, if there is one and there is a context to ask about. */
  function Reply<C>(parser: Option<C -> Option<Action>>, ctx: Option<C>): Option<Action> {
    if parser.None? || ctx.None? then None else parser.value(ctx.value)
  }

  /** What the host gets to see of an action whose infos project to ms: all of them in one
      stream, unless there was an error, there is nothing to say, or it does not fit. Only
      `parse_payload` may return several. */
  ghost function Delivery(act: Action, ms: seq<InfoMsg>, several: bool): HostCall {
    if act.failed || ms == [] || (|ms| > 1 && !several) then Returned(act.isAbort, None)
    else Handed(act.isAbort, Serialized(ms))
  }

  /** What the host gets of a serialization. */
  function Handed(abort: bool, r: Serialization): HostCall {
    match r
    case Stream(data) => Returned(abort, Some(data))
    case Refused => Returned(abort, None)
    case Crashed => Trapped
  }

  /** There is nothing for the host to read in an action. */
  predicate Silent(act: Action, several: bool) {
    act.failed || |act.payloadResult| == 0 || (|act.payloadResult| > 1 && !several)
  }

  /** What a call owes for an action: it returns the action's abort flag, whatever happened; it
      hands over bytes exactly when there is something to read and it fits 65536 bytes; and
      then the host reads from them every field of every info. */
  ghost predicate Answers(act: Action, direction: u8, several: bool, call: HostCall)
    reads set info | info in act.payloadResult && info.resp != null :: info.resp
  {
    && (call.Returned? ==> call.abort == act.isAbort)
    && (Silent(act, several) ==> call.Returned? && call.sent == None)
    && (call.Returned? && call.sent.Some? <==>
        !Silent(act, several) && |Frames(Projected(act.payloadResult, direction))| <= 65536)
    && (call.Returned? && call.sent.Some? ==> HostReads(call.sent.value, act.payloadResult, direction))
  }

  lemma DeliveryAnswers(act: Action, direction: u8, several: bool)
    ensures Answers(act, direction, several, Delivery(act, Projected(act.payloadResult, direction), several))
  {
    hide Frames, Room, Projected, HostReads, Silent, PassesCheck;
    var ms := Projected(act.payloadResult, direction);
    SilentProjection(act, ms, several);
    FramesSize(ms);
    if Serialized(ms).Stream? { StreamCarries(act.payloadResult, direction); }
  }

  lemma SilentProjection(act: Action, ms: seq<InfoMsg>, several: bool)
    requires |ms| == |act.payloadResult|
    ensures Silent(act, several) <==> act.failed || ms == [] || (|ms| > 1 && !several)
  {
  }

  method Deliver(act: Action, direction: u8, several: bool) returns (call: HostCall)
    ensures call == Delivery(act, Projected(act.payloadResult, direction), several)
    ensures Answers(act, direction, several, call)
  {
    hide Frames, Room, PassesCheck, ArmOf, AttributesOf, TraceOf, U32Of, HostReads, Answers;
    var infos := act.payloadResult;
    ghost var ms := Projected(infos, direction);
    DeliveryAnswers(act, direction, several);
    if act.failed {
      return Returned(act.isAbort, None);
    }
    if |infos| > 1 && !several {
      return Returned(act.isAbort, None);
    }
    var r := SerializeL7ProtocolInfo(infos, direction);
    assert forall k :: 0 <= k < |infos| ==> Project(infos[k], direction) == ms[k];
    assert Projected(infos, direction) == ms;
    DeliveryAnswers(act, direction, several);
    if ms == [] {
      NoFrames();
    } else {
      SomeFrames(ms);
    }
    match r {
      case Crashed => return Trapped;
      case Refused => return Returned(act.isAbort, None);
      case Stream(data) =>
        if |data| == 0 {
          return Returned(act.isAbort, None);
        }
        return Returned(act.isAbort, Some(data));
    }
  }

  lemma SomeFrames(ms: seq<InfoMsg>)
    requires ms != []
    ensures Frames(ms) != []
  {
    hide EncInfo;
    FrameSize(ms[0]);
  }

  /** `on_http_req`. */
  method OnHttpReq(parser: Option<HttpReqCtx -> Option<Action>>, paramBuf: bytes, reqInfo: bytes)
    returns (call: HostCall)
    ensures var reply := Reply(parser, HttpReqOf(paramBuf, reqInfo));
            call == if reply.None? then IGNORED
                    else Delivery(reply.value, Projected(reply.value.payloadResult, DIRECTION_REQUEST), false)
    ensures var reply := Reply(parser, HttpReqOf(paramBuf, reqInfo));
            if reply.None? then call == Returned(false, None) else Answers(reply.value, 0, false, call)
  {
    hide Delivery, Projected, HttpReqOf, Answers;
    if parser.None? {
      return IGNORED;
    }
    var ctx := DeserializeHttpReqCtx(paramBuf, reqInfo);
    if ctx.None? {
      return IGNORED;
    }
    var act := parser.value(ctx.value);
    if act.None? {
      return IGNORED;
    }
    call := Deliver(act.value, DIRECTION_REQUEST, false);
  }

  /** `parse_payload`, the only one that may return several infos. */
  method ParsePayload(parser: Option<ParseCtx -> Option<Action>>, paramBuf: bytes) returns (call: HostCall)
    ensures var reply := Reply(parser, CtxOf(paramBuf));
            call == if reply.None? then IGNORED
                    else
                      var direction := CtxOf(paramBuf).value.direction;
                      Delivery(reply.value, Projected(reply.value.payloadResult, direction), true)
    ensures var reply := Reply(parser, CtxOf(paramBuf));
            if reply.None? then call == Returned(false, None)
            else Answers(reply.value, CtxOf(paramBuf).value.direction, true, call)
  {
    hide Delivery, Projected, CtxOf, Answers;
    if parser.None? {
      return IGNORED;
    }
    var ctx := DeserializeParseCtx(paramBuf);
    if ctx.None? {
      return IGNORED;
    }
    var act := parser.value(ctx.value);
    if act.None? {
      return IGNORED;
    }
    call := Deliver(act.value, ctx.value.direction, true);
  }

  // ---------------------------------------------------------------------------------------
  // What reaches the host
  // ---------------------------------------------------------------------------------------

  /** The host reads one message with a response of that status. */
  ghost predicate HostReadsStatus(data: bytes, status: i32) {
    var bodies := SplitFrames(data);
    && bodies.Some? && |bodies.value| == 1 && |bodies.value[0]| >= 2
    && var o := Decode(INFO, NO_INFO, bodies.value[0][2..]);
       && o.err == None && o.msg.arm.RespArm? && o.msg.arm.resp.status == Some(status)
  }

  lemma DeliveryOfOne(act: Action, info: L7ProtocolInfo)
    requires act.payloadResult == [info] && info.resp != null
    ensures var call := Delivery(act, Projected(act.payloadResult, DIRECTION_RESPONSE), false);
            call.Returned? && call.sent.Some? ==> HostReadsStatus(call.sent.value, StatusOf(info.resp.status))
  {
    hide HostReadsStatus, StatusOf, Projected;
    var call := Delivery(act, Projected(act.payloadResult, DIRECTION_RESPONSE), false);
    if call.Returned? && call.sent.Some? { StatusReachesHost(act, info, call.sent.value); }
  }

  /** With a response the host always gets its mapped status, request or not. */
  lemma StatusReachesHost(act: Action, info: L7ProtocolInfo, data: bytes)
    requires act.payloadResult == [info] && info.resp != null
    requires Delivery(act, Projected(act.payloadResult, DIRECTION_RESPONSE), false) == Returned(act.isAbort, Some(data))
    ensures HostReadsStatus(data, StatusOf(info.resp.status))
  {
    hide Decode, SplitFrames, Serialized;
    HostReadsProjections(act.payloadResult, DIRECTION_RESPONSE);
  }

  /** The mapping keeps a status exactly when it is one of the five the decoder validates, so
      a status the host sent is the status the host gets back. */
  lemma StatusKept(status: u8)
    ensures StatusOf(Some(status)) == status <==> KnownStatus(status)
    ensures forall t :: KnownStatus(status) && KnownStatus(t) && status != t ==>
              StatusOf(Some(status)) != StatusOf(Some(t))
  {
  }

  /** A status that is none of the five, here 1, is sent as RESP_OK. */
  lemma UnmappedExample(act: Action, info: L7ProtocolInfo, data: bytes)
    requires act.payloadResult == [info] && info.resp != null && info.resp.status == Some(1)
    requires Delivery(act, Projected(act.payloadResult, DIRECTION_RESPONSE), false) == Returned(act.isAbort, Some(data))
    ensures HostReadsStatus(data, 0)
  {
    hide HostReadsStatus, Delivery, Projected;
    StatusReachesHost(act, info, data);
  }

  // ---------------------------------------------------------------------------------------
  // `on_http_resp`
  // ---------------------------------------------------------------------------------------

  /** The response `on_http_resp` fills in, if it gets that far. */
  function Touched(reply: Option<Action>): (r: Response?)
    ensures r != null ==>
              && reply.Some? && !reply.value.failed && |reply.value.payloadResult| == 1
              && reply.value.payloadResult[0].resp == r
  {
    if reply.None? || reply.value.failed || |reply.value.payloadResult| != 1 then null
    else reply.value.payloadResult[0].resp
  }

  ghost function TouchedSet(reply: Option<Action>): set<object> {
    var resp := Touched(reply);
    if resp == null then {} else {resp}
  }

  /** How the call ends, in the state with the status filled in. */
  ghost function RespCall(reply: Option<Action>): HostCall
    reads if reply.None? then {} else set info | info in reply.value.payloadResult && info.resp != null :: info.resp
  {
    if reply.None? then IGNORED
    else
      var act := reply.value;
      if !act.failed && |act.payloadResult| == 1 && act.payloadResult[0].resp == null then Trapped
      else Delivery(act, Projected(act.payloadResult, DIRECTION_RESPONSE), false)
  }

  /** An info with a request only, as `HttpReqActionAbortWithResult` makes it, traps. */
  lemma NoResponseExample(req: Request)
    ensures RespCall(Some(ParseActionAbortWithL7Info([NO_L7_INFO.(req := Some(req))]))) == Trapped
  {
  }

  /** The same for `on_http_resp`, which is alone in trapping on an info without a response. */
  lemma RespCallAnswers(act: Action)
    ensures RespCall(None) == Returned(false, None)
    ensures var nil := !act.failed && |act.payloadResult| == 1 && act.payloadResult[0].resp == null;
            if nil then RespCall(Some(act)).Trapped? else Answers(act, 1, false, RespCall(Some(act)))
  {
    hide Delivery, Projected, Answers;
    DeliveryAnswers(act, 1, false);
  }

  /** The response is what it was, but for a missing status, and the host reads its status
      back: the plugin's, or else the one it had sent itself. */
  twostate predicate StatusPreserved(resp: Response, status: u8, call: HostCall)
    reads resp
  {
    && resp.status == (if old(resp.status).Some? then old(resp.status) else Some(status))
    && resp.code == old(resp.code) && resp.result == old(resp.result) && resp.exception == old(resp.exception)
    && resp.reqType == old(resp.reqType) && resp.endpoint == old(resp.endpoint)
    && (call.Returned? && call.sent.Some? ==>
          && HostReadsStatus(call.sent.value, StatusOf(resp.status))
          && (old(resp.status) == None ==> HostReadsStatus(call.sent.value, status)))
  }

  /** The rest of `on_http_resp`: a missing status becomes the one the host sent, in place,
      before the action is delivered; an info without a response traps. */
  method FillAndDeliver(act: Action, status: u8) returns (call: HostCall)
    requires KnownStatus(status)
    modifies TouchedSet(Some(act))
    ensures call == RespCall(Some(act))
    ensures Touched(Some(act)) != null ==> StatusPreserved(Touched(Some(act)), status, call)
  {
    hide Delivery, Projected, HostReadsStatus, StatusOf, Answers;
    if !act.failed && |act.payloadResult| == 1 {
      var resp := act.payloadResult[0].resp;
      if resp == null {
        return Trapped;
      }
      if resp.status == None {
        resp.status := Some(status);
      }
    }
    call := Deliver(act, DIRECTION_RESPONSE, false);
    if Touched(Some(act)) != null {
      DeliveryOfOne(act, act.payloadResult[0]);
      StatusKept(status);
    }
  }

  /** `on_http_resp`. */
  method OnHttpResp(parser: Option<HttpRespCtx -> Option<Action>>, paramBuf: bytes, respInfo: bytes)
    returns (call: HostCall)
    modifies TouchedSet(Reply(parser, HttpRespOf(paramBuf, respInfo)))
    ensures call == RespCall(Reply(parser, HttpRespOf(paramBuf, respInfo)))
    ensures var resp := Touched(Reply(parser, HttpRespOf(paramBuf, respInfo)));
            resp != null ==> StatusPreserved(resp, respInfo[2], call)
  {
    hide Delivery, Projected, HostReadsStatus, StatusOf;
    if parser.None? {
      return IGNORED;
    }
    var ctx := DeserializeHttpRespCtx(paramBuf, respInfo);
    if ctx.None? {
      return IGNORED;
    }
    var act := parser.value(ctx.value);
    if act.None? {
      return IGNORED;
    }
    call := FillAndDeliver(act.value, ctx.value.status);
    assert Touched(act) != null ==> StatusPreserved(Touched(act), respInfo[2], call);
  }
}
