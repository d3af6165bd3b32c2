/**
 The nRPC plugin of example/nats/nats.go: it matches replies on NATS to the requests they
 answer. `kv` remembers, per reply subject, the function that was called.
 */
module Nats {
  import opened Machine
  import opened BigEndian
  import opened Codec
  import opened Messages
  import opened RoundTrip
  import opened NatsMessages
  import opened Plugin
  import opened Context
  import opened CustomMessage
  import opened Framing
  import opened Serde
  import opened Host

  // ---------------------------------------------------------------------------------------
  // Function names
  // ---------------------------------------------------------------------------------------

  const DOT: byte := 46

  /** `strings.Index(s, ".")`. */
  function IndexDot(s: bytes): (pos: int)
    ensures -1 <= pos < |s|
    ensures pos >= 0 ==> s[pos] == DOT && DOT !in s[..pos]
    ensures pos == -1 ==> DOT !in s
  {
    if s == [] then -1
    else if s[0] == DOT then 0
    else
      var rest := IndexDot(s[1..]);
      if rest == -1 then -1 else
        assert s[..rest + 1] == [s[0]] + s[1..][..rest];
        rest + 1
  }

  datatype Callee = Callee(service: bytes, method_: bytes)

  /** Service and method of a called function; both empty unless a service precedes a dot. */
  function CalleeOf(function_: bytes): Callee {
    var pos := IndexDot(function_);
    if pos > 0 then Callee(function_[..pos], function_[pos + 1..]) else Callee([], [])
  }

  /** The two names make up the function exactly when its first dot has something before it;
      the one other case is the lone dot. */
  lemma CalleeRejoins(function_: bytes)
    ensures var c := CalleeOf(function_);
            && DOT !in c.service
            && (c.service + [DOT] + c.method_ == function_ <==> IndexDot(function_) > 0 || function_ == [DOT])
  {
    var pos := IndexDot(function_);
    if pos > 0 {
      assert function_ == function_[..pos] + [function_[pos]] + function_[pos + 1..];
    }
  }

  /** And they are the only such names. */
  lemma CalleeUnique(function_: bytes, c: Callee)
    requires c.service != [] && DOT !in c.service && c.service + [DOT] + c.method_ == function_
    ensures c == CalleeOf(function_)
  {
    var pos, n := IndexDot(function_), |c.service|;
    assert function_[n] == DOT && function_[..n] == c.service && function_[n + 1..] == c.method_;
    assert forall k :: 0 <= k < n ==> function_[k] == c.service[k] != DOT;
    assert forall k :: 0 <= k < pos ==> function_[k] == function_[..pos][k] != DOT;
  }

  // ---------------------------------------------------------------------------------------
  // The correlator over a history of messages
  // ---------------------------------------------------------------------------------------

  /** What the plugin reports about a message. */
  datatype Report = Report(function_: bytes, isRequest: bool, callId: bytes, payload: bytes)

  predicate IsRequest(m: NatsMsg) {
    |m.replyTo| > 0
  }

  /** The function of call c: the subject of the latest request that wants its answer there. */
  function LatestRequest(history: seq<NatsMsg>, c: bytes): Option<bytes> {
    if history == [] then None
    else
      var last := history[|history| - 1];
      if IsRequest(last) && last.replyTo == c then Some(last.subject)
      else LatestRequest(history[..|history| - 1], c)
  }

  /** Stated without recursion: request k is the latest one of call c. */
  predicate IsLatest(history: seq<NatsMsg>, c: bytes, k: int)
    ensures IsLatest(history, c, k) ==> 0 <= k < |history|
  {
    && 0 <= k < |history| && IsRequest(history[k]) && history[k].replyTo == c
    && forall j :: k < j < |history| ==> !(IsRequest(history[j]) && history[j].replyTo == c)
  }

  lemma {:induction false} LatestRequestIs(history: seq<NatsMsg>, c: bytes, subject: bytes)
    ensures LatestRequest(history, c) == Some(subject) <==>
            exists k :: IsLatest(history, c, k) && history[k].subject == subject
    decreases |history|
  {
    if history != [] {
      var n := |history| - 1;
      var front := history[..n];
      if IsRequest(history[n]) && history[n].replyTo == c {
        assert IsLatest(history, c, n);
      } else {
        LatestRequestIs(front, c, subject);
        if k :| IsLatest(front, c, k) && front[k].subject == subject {
          assert IsLatest(history, c, k);
        }
        if k :| IsLatest(history, c, k) && history[k].subject == subject {
          assert IsLatest(front, c, k);
        }
      }
    }
  }

  /** What should be reported about m after `history`: every request, and every message
      without a reply subject that answers an earlier request. */
  function Expected(history: seq<NatsMsg>, m: NatsMsg): Option<Report> {
    if IsRequest(m) then Some(Report(m.subject, true, m.replyTo, m.payload))
    else
      match LatestRequest(history, m.subject)
      case None => None
      case Some(f) => Some(Report(f, false, m.subject, m.payload))
  }

  // ---------------------------------------------------------------------------------------
  // The plugin as a state machine
  // ---------------------------------------------------------------------------------------

  type Calls = map<bytes, bytes>

  function Remember(kv: Calls, m: NatsMsg): Calls {
    if IsRequest(m) then kv[m.replyTo := m.subject] else kv
  }

  function Answer(kv: Calls, m: NatsMsg): Option<Report> {
    if IsRequest(m) then Some(Report(m.subject, true, m.replyTo, m.payload))
    else if m.subject in kv then Some(Report(kv[m.subject], false, m.subject, m.payload))
    else None
  }

  /** The map holds exactly the latest requests of the history. */
  ghost predicate Remembers(kv: Calls, history: seq<NatsMsg>) {
    forall c :: LatestRequest(history, c) == if c in kv then Some(kv[c]) else None
  }

  lemma RemembersNothing()
    ensures Remembers(map[], [])
  {
  }

  /** One message keeps the invariant, and its answer is the expected one. */
  lemma RemembersNext(kv: Calls, history: seq<NatsMsg>, m: NatsMsg)
    requires Remembers(kv, history)
    ensures Remembers(Remember(kv, m), history + [m])
    ensures Answer(kv, m) == Expected(history, m)
  {
    forall c ensures LatestRequest(history + [m], c)
                     == if c in Remember(kv, m) then Some(Remember(kv, m)[c]) else None {
      assert (history + [m])[..|history|] == history;
    }
  }

  // ---------------------------------------------------------------------------------------
  // The plugin as it is written
  // ---------------------------------------------------------------------------------------

  /** The generated converter, of which nothing is assumed: a function of the service, the
      method, the direction and the payload. */
  const PROTOBUF_TO_JSON: (bytes, bytes, bool, bytes) -> bytes

  const JSON_PAYLOAD: bytes := [106, 115, 111, 110, 95, 112, 97, 121, 108, 111, 97, 100]
  const CALL_ID: bytes := [99, 97, 108, 108, 95, 105, 100]
  const NRPC: bytes := [110, 82, 80, 67]

  const NO_REQ := Request([], [], [], [], [])

  function JsonOf(r: Report): bytes {
    var c := CalleeOf(r.function_);
    PROTOBUF_TO_JSON(c.service, c.method_, r.isRequest, r.payload)
  }

  /** The info made of a report: both a request and a response, empty, and two attributes. */
  function NrpcInfo(r: Report, resp: Response): L7ProtocolInfo {
    NO_L7_INFO.(req := Some(NO_REQ), resp := resp, l7ProtocolStr := NRPC,
                kv := [Pair(JSON_PAYLOAD, JsonOf(r)), Pair(CALL_ID, r.callId)])
  }

  ghost predicate Reports(act: Action, answer: Option<Report>)
    reads if act.payloadResult == [] then {} else {act.payloadResult[0].resp}
  {
    if answer.None? then act == ACTION_NEXT
    else
      && |act.payloadResult| == 1 && act.payloadResult[0].resp != null
      && act == ParseActionAbortWithL7Info([NrpcInfo(answer.value, act.payloadResult[0].resp)])
      && Zero(act.payloadResult[0].resp)
  }

  predicate Zero(resp: Response)
    reads resp
  {
    resp.status == None && resp.code == None && resp.result == resp.exception == resp.reqType == resp.endpoint == []
  }

  // ---------------------------------------------------------------------------------------
  // What a report says
  // ---------------------------------------------------------------------------------------

  predicate IsAscii(s: string) {
    forall c :: c in s ==> c as int < 128
  }

  function AsciiByte(c: char): byte
    requires c as int < 128
  {
    c as int
  }

  /** The bytes of a name. */
  function Ascii(s: string): (b: bytes)
    requires IsAscii(s)
    ensures |b| == |s| && forall k :: 0 <= k < |s| ==> b[k] == s[k] as int
  {
    seq(|s|, k requires 0 <= k < |s| => assert s[k] in s; AsciiByte(s[k]))
  }

  lemma Names()
    ensures IsAscii("json_payload") && IsAscii("call_id") && IsAscii("nRPC")
    ensures JSON_PAYLOAD == Ascii("json_payload") && CALL_ID == Ascii("call_id") && NRPC == Ascii("nRPC")
  {
  }

  /** The converter was asked for the service and the method of the function f: what precedes
      its first dot and what follows it, or nothing when there is no dot or nothing before it. */
  ghost predicate Converted(json: bytes, f: bytes, isRequest: bool, payload: bytes) {
    && (forall service: bytes, method_: bytes ::
          service != [] && 46 !in service && f == service + [46] + method_ ==>
            json == PROTOBUF_TO_JSON(service, method_, isRequest, payload))
    && (46 !in f || f[0] == 46 ==> json == PROTOBUF_TO_JSON([], [], isRequest, payload))
  }

  lemma JsonConverts(r: Report)
    ensures Converted(JsonOf(r), r.function_, r.isRequest, r.payload)
  {
    forall service: bytes, method_: bytes
      | service != [] && 46 !in service && r.function_ == service + [46] + method_
      ensures JsonOf(r) == PROTOBUF_TO_JSON(service, method_, r.isRequest, r.payload)
    {
      CalleeUnique(r.function_, Callee(service, method_));
    }
  }

  /** The action for a message, given the functions of the calls so far: a message with a
      reply subject is a request for its own subject; one without answers the call its subject
      names, if there is one; and any other is passed on. */
  ghost predicate Converts(kv: Calls, m: NatsMsg, act: Action)
    reads if act.payloadResult == [] then {} else {act.payloadResult[0].resp}
  {
    var isRequest := |m.replyTo| > 0;
    if !isRequest && m.subject !in kv then act == Action(false, false, [])
    else
      && act.isAbort && !act.failed && |act.payloadResult| == 1
      && var info := act.payloadResult[0];
         && info.req == Some(Request([], [], [], [], [])) && info.resp != null && info.resp.status == None
         && IsAscii("nRPC") && info.l7ProtocolStr == Ascii("nRPC")
         && IsAscii("json_payload") && IsAscii("call_id") && |info.kv| == 2
         && info.kv[0].key == Ascii("json_payload") && info.kv[1].key == Ascii("call_id")
         && info.kv[1].val == (if isRequest then m.replyTo else m.subject)
         && Converted(info.kv[0].val, if isRequest then m.subject else kv[m.subject], isRequest, m.payload)
  }

  lemma ReportsConverts(kv: Calls, m: NatsMsg, act: Action)
    requires Reports(act, Answer(kv, m))
    ensures Converts(kv, m, act)
  {
    hide JsonOf, Converted;
    Names();
    var answer := Answer(kv, m);
    if answer.Some? { JsonConverts(answer.value); }
  }

  const PROTOCOL_PARSE: u16 := 0
  const PROTOCOL_NATS: u16 := 104

  /** `CheckParseProtocol(PROTOCOL_NATS, true)`. */
  predicate IsNats(ctx: CustomMessageCtx) {
    ctx.hookPoint == PROTOCOL_PARSE && ctx.typeCode == PROTOCOL_NATS
  }

  /** The message the plugin gets to see. A payload that fails to decode is not an error: the
      fields decoded so far are used. */
  function Heard(ctx: CustomMessageCtx): Option<NatsMsg> {
    if IsNats(ctx) then Some(Decode(NATS, NO_NATS, ctx.payload).msg) else None
  }

  class NrpcParser {
    var kv: Calls

    constructor ()
      ensures kv == map[]
    {
      kv := map[];
    }

    method OnNatsMessage(message: NatsMessage) returns (act: Action)
      modifies this
      ensures kv == Remember(old(kv), old(message.Value()))
      ensures Reports(act, Answer(old(kv), old(message.Value())))
      ensures Converts(old(kv), old(message.Value()), act)
    {
      hide Converts;
      ghost var before, v := kv, message.Value();
      var service: bytes, method_: bytes := [], [];
      var isRequest;
      var function_, callId;
      if |message.replyTo| > 0 {
        function_ := message.subject;
        callId := message.replyTo;
        kv := kv[callId := function_];
        isRequest := true;
      } else {
        callId := message.subject;
        if message.subject !in kv {
          ReportsConverts(before, v, ACTION_NEXT);
          return ACTION_NEXT;
        }
        function_ := kv[message.subject];
        isRequest := false;
      }
      if |function_| > 0 {
        var pos := IndexDot(function_);
        if pos > 0 {
          service, method_ := function_[..pos], function_[pos + 1..];
        } else {
          service, method_ := [], [];
        }
      }
      var jsonStr := PROTOBUF_TO_JSON(service, method_, isRequest, message.payload);
      var resp := new Response();
      act := ParseActionAbortWithL7Info([
        NO_L7_INFO.(resp := resp, req := Some(NO_REQ),
                    kv := [Pair(JSON_PAYLOAD, jsonStr), Pair(CALL_ID, callId)], l7ProtocolStr := NRPC)]);
      ReportsConverts(before, v, act);
    }

    /** `DefaultParser.OnCustomMessage`, which the plugin inherits. */
    method OnCustomMessage(ctx: CustomMessageCtx) returns (act: Action)
      requires |ctx.payload| <= MAX_INT
      modifies this
      ensures Heard(ctx).None? ==> kv == old(kv) && act == ACTION_NEXT
      ensures Heard(ctx).Some? ==>
                kv == Remember(old(kv), Heard(ctx).value) && Reports(act, Answer(old(kv), Heard(ctx).value))
    {
      hide Decode, Reports;
      if IsNats(ctx) {
        var message := new NatsMessage();
        var _ := message.UnmarshalVT(ctx.payload);
        act := OnNatsMessage(message);
        return;
      }
      return ACTION_NEXT;
    }
  }

  // ---------------------------------------------------------------------------------------
  // The exported function
  // ---------------------------------------------------------------------------------------

  /** The message the host gets for a report, by the direction of the message: an empty
      request or an empty response of unknown status, and the attributes. */
  function NrpcMsg(r: Report, direction: u8): InfoMsg {
    NO_INFO.(arm := if direction == DIRECTION_REQUEST
                    then ReqArm(RequestMsg(Some([]), Some([]), Some([]), Some([]), Some([]), []))
                    else RespArm(ResponseMsg(Some(5), None, Some([]), Some([]), Some([]), Some([]), [])),
             protocolStr := Some(NRPC),
             attributes := [KeyValMsg(JSON_PAYLOAD, JsonOf(r), []), KeyValMsg(CALL_ID, r.callId, [])],
             bizType := Some(0), bizCode := Some([]), bizScenario := Some([]), bizResponseCode := Some([]))
  }

  lemma NrpcProjects(r: Report, resp: Response, direction: u8)
    requires Zero(resp) && (direction == DIRECTION_REQUEST || direction == DIRECTION_RESPONSE)
    ensures Projected([NrpcInfo(r, resp)], direction) == [NrpcMsg(r, direction)]
  {
    hide JsonOf;
    var info := NrpcInfo(r, resp);
    assert AttributesOf(info.kv) == [KeyValMsg(JSON_PAYLOAD, JsonOf(r), []), KeyValMsg(CALL_ID, r.callId, [])];
    assert Projected([info], direction)[0] == NrpcMsg(r, direction);
  }

  /** How a call with that answer ends. */
  ghost function CallWith(answer: Option<Report>, direction: u8): HostCall {
    match answer
    case None => IGNORED
    case Some(r) => Handed(true, Serialized([NrpcMsg(r, direction)]))
  }

  datatype Input = Input(paramBuf: bytes, messageInfo: bytes)

  ghost function HeardFrom(input: Input): Option<NatsMsg> {
    match CustomMessageOf(input.paramBuf, input.messageInfo)
    case Accepted(ctx) => Heard(ctx)
    case _ => None
  }

  ghost function KvNext(kv: Calls, input: Input): Calls {
    match HeardFrom(input)
    case None => kv
    case Some(m) => Remember(kv, m)
  }

  /** How the call ends, given what is to be answered to a message. */
  ghost function CallOf(input: Input, answer: NatsMsg -> Option<Report>): HostCall {
    match CustomMessageOf(input.paramBuf, input.messageInfo)
    case Rejected => IGNORED
    case Panicked => Trapped
    case Accepted(ctx) =>
      CallWith(match Heard(ctx) case None => None case Some(m) => answer(m), ctx.base.direction)
  }

  /** `on_custom_message` with this plugin installed, or with none. */
  method OnCustomMessageExport(parser: NrpcParser?, input: Input) returns (call: HostCall)
    requires |input.messageInfo| <= MAX_INT
    modifies parser
    ensures parser == null ==> call == IGNORED
    ensures parser != null ==>
              && parser.kv == KvNext(old(parser.kv), input)
              && call == CallOf(input, m => Answer(old(parser.kv), m))
  {
    hide Answer, Remember, Projected, Delivery, Serialized, Decode, HoldsMessage, NrpcMsg;
    if parser == null {
      return IGNORED;
    }
    var decoded := DeserializeCustomMessageCtx(input.paramBuf, input.messageInfo);
    match decoded {
      case Rejected => return IGNORED;
      case Panicked => return Trapped;
      case Accepted(ctx) =>
        AcceptedCtx(input.paramBuf, input.messageInfo, ctx);
        var act := parser.OnCustomMessage(ctx);
        ghost var answer := if Heard(ctx).None? then None else Answer(old(parser.kv), Heard(ctx).value);
        DeliveryOfReport(act, answer, ctx.base.direction);
        call := Deliver(act, ctx.base.direction, false);
    }
  }

  lemma AcceptedCtx(paramBuf: bytes, b: bytes, c: CustomMessageCtx)
    requires CustomMessageOf(paramBuf, b) == Accepted(c)
    ensures |c.payload| <= |b|
    ensures c.base.direction == DIRECTION_REQUEST || c.base.direction == DIRECTION_RESPONSE
  {
    hide EncBE, EncCtx;
  }

  lemma DeliveryOfReport(act: Action, answer: Option<Report>, direction: u8)
    requires Reports(act, answer) && (direction == DIRECTION_REQUEST || direction == DIRECTION_RESPONSE)
    ensures Delivery(act, Projected(act.payloadResult, direction), false) == CallWith(answer, direction)
  {
    hide Serialized, NrpcMsg;
    if answer.Some? {
      NrpcProjects(answer.value, act.payloadResult[0].resp, direction);
    }
  }

  /** The host reads the report back. */
  lemma ReportReachesHost(r: Report, direction: u8)
    requires Serialized([NrpcMsg(r, direction)]).Stream?
    ensures CallWith(Some(r), direction) == Returned(true, Some(Serialized([NrpcMsg(r, direction)]).data))
    ensures var bodies := SplitFrames(Serialized([NrpcMsg(r, direction)]).data);
            && bodies.Some? && |bodies.value| == 1 && |bodies.value[0]| >= 2
            && Decode(INFO, NO_INFO, bodies.value[0][2..]) == Outcome(NrpcMsg(r, direction), None)
  {
    hide Decode, SplitFrames, Serialized, JsonOf;
    EmptyWf();
    StreamMeansRoom([NrpcMsg(r, direction)]);
    StreamRoundTrip([NrpcMsg(r, direction)]);
  }

  // ---------------------------------------------------------------------------------------
  // Runs
  // ---------------------------------------------------------------------------------------

  /** The plugin's map after a run from the start. */
  ghost function KvAfter(inputs: seq<Input>): Calls {
    if inputs == [] then map[] else KvNext(KvAfter(inputs[..|inputs| - 1]), inputs[|inputs| - 1])
  }

  /** The messages heard in a run, in order. */
  ghost function HeardIn(inputs: seq<Input>): seq<NatsMsg> {
    if inputs == [] then []
    else
      var n := |inputs| - 1;
      HeardIn(inputs[..n]) + match HeardFrom(inputs[n]) case None => [] case Some(m) => [m]
  }

  /** After any run the map holds, for every call, the latest request heard. */
  lemma {:induction false} RunRemembers(inputs: seq<Input>)
    ensures Remembers(KvAfter(inputs), HeardIn(inputs))
    decreases |inputs|
  {
    hide Remembers, HeardFrom, Remember;
    if inputs == [] {
      RemembersNothing();
    } else {
      var n := |inputs| - 1;
      RunRemembers(inputs[..n]);
      if HeardFrom(inputs[n]).Some? {
        RemembersNext(KvAfter(inputs[..n]), HeardIn(inputs[..n]), HeardFrom(inputs[n]).value);
      } else {
        assert HeardIn(inputs) == HeardIn(inputs[..n]);
      }
    }
  }

  /** Every call of every run ends as the correlator over the messages heard before says. */
  lemma EndToEnd(inputs: seq<Input>, k: nat)
    requires k < |inputs|
    ensures CallOf(inputs[k], m => Answer(KvAfter(inputs[..k]), m))
         == CallOf(inputs[k], m => Expected(HeardIn(inputs[..k]), m))
  {
    hide Remembers, Answer, Expected;
    RunRemembers(inputs[..k]);
    forall m: NatsMsg ensures Answer(KvAfter(inputs[..k]), m) == Expected(HeardIn(inputs[..k]), m) {
      RemembersNext(KvAfter(inputs[..k]), HeardIn(inputs[..k]), m);
    }
  }

  /** What a host writes to deliver a NATS message. */
  function InputOf(base: ParseCtx, m: NatsMsg): Input
    requires ValidCtx(base)
  {
    Input(EncCtx(base), EncMessage(CustomMessageCtx(base, PROTOCOL_PARSE, PROTOCOL_NATS, EncNats(m))))
  }

  ghost predicate Sendable(m: NatsMsg) {
    NatsWf(m) && |EncNats(m)| <= MAX_INT && |EncNats(m)| + 10 < TWO_32
  }

  /** What is written is what is heard: buffer layout, protobuf and dispatch composed. */
  lemma InputIsHeard(base: ParseCtx, m: NatsMsg)
    requires ValidCtx(base) && Sendable(m)
    ensures HeardFrom(InputOf(base, m)) == Some(m)
    ensures CustomMessageOf(InputOf(base, m).paramBuf, InputOf(base, m).messageInfo).Accepted?
    ensures CustomMessageOf(InputOf(base, m).paramBuf, InputOf(base, m).messageInfo).ctx.base == base
  {
    hide Decode, EncNats, EncCtx, NatsWf;
    var c := CustomMessageCtx(base, PROTOCOL_PARSE, PROTOCOL_NATS, EncNats(m));
    CtxRoundTrip(base, []);
    assert EncCtx(base) + [] == EncCtx(base);
    MessageSize(c);
    MessageRoundTrip(EncCtx(base), c, []);
    assert EncMessage(c) + [] == EncMessage(c);
    NatsRoundTrip(m);
  }

  lemma MessageSize(c: CustomMessageCtx)
    ensures |EncMessage(c)| == 10 + |c.payload|
  {
    hide EncBE;
  }

  function InputsOf(base: seq<ParseCtx>, ms: seq<NatsMsg>): (inputs: seq<Input>)
    requires |base| == |ms| && forall k :: 0 <= k < |base| ==> ValidCtx(base[k])
    ensures |inputs| == |ms| && forall k :: 0 <= k < |ms| ==> inputs[k] == InputOf(base[k], ms[k])
  {
    seq(|ms|, k requires 0 <= k < |ms| => InputOf(base[k], ms[k]))
  }

  lemma {:induction false} RunHears(base: seq<ParseCtx>, ms: seq<NatsMsg>)
    requires |base| == |ms| && forall k :: 0 <= k < |base| ==> ValidCtx(base[k])
    requires forall m :: m in ms ==> Sendable(m)
    ensures HeardIn(InputsOf(base, ms)) == ms
    decreases |ms|
  {
    hide HeardFrom, ValidCtx, Sendable, InputOf;
    if ms != [] {
      var n := |ms| - 1;
      RunHears(base[..n], ms[..n]);
      InputIsHeard(base[n], ms[n]);
      assert InputsOf(base, ms)[..n] == InputsOf(base[..n], ms[..n]);
      assert ms == ms[..n] + [ms[n]];
    }
  }

  /** End to end: deliver any NATS messages, in any contexts, to a plugin that has just
      started. The k-th call hands the host a report exactly when message k is a request or
      answers an earlier one, and the report is that of the latest such request. */
  lemma {:induction false} RunCorrelates(base: seq<ParseCtx>, ms: seq<NatsMsg>, k: nat)
    requires |base| == |ms| && forall j :: 0 <= j < |base| ==> ValidCtx(base[j])
    requires k < |ms| && forall m :: m in ms ==> Sendable(m)
    ensures var inputs := InputsOf(base, ms);
            CallOf(inputs[k], m => Answer(KvAfter(inputs[..k]), m))
            == CallWith(Expected(ms[..k], ms[k]), base[k].direction)
  {
    hide HeardFrom, ValidCtx, Sendable, InputOf, Expected, Answer;
    var inputs := InputsOf(base, ms);
    EndToEnd(inputs, k);
    assert inputs[..k] == InputsOf(base[..k], ms[..k]);
    RunHears(base[..k], ms[..k]);
    InputIsHeard(base[k], ms[k]);
    HeardFromAccepted(inputs[k]);
  }

  lemma HeardFromAccepted(input: Input)
    requires CustomMessageOf(input.paramBuf, input.messageInfo).Accepted?
    ensures HeardFrom(input) == Heard(CustomMessageOf(input.paramBuf, input.messageInfo).ctx)
  {
  }

  // ---------------------------------------------------------------------------------------
  // Runs, in terms of what the host reads
  // ---------------------------------------------------------------------------------------

  /** Only messages for hook point 0 and type code 104 are heard. */
  lemma HeardIffNats(input: Input, kv: Calls, answer: NatsMsg -> Option<Report>)
    ensures var d := CustomMessageOf(input.paramBuf, input.messageInfo);
            && (HeardFrom(input).Some? <==> d.Accepted? && d.ctx.hookPoint == 0 && d.ctx.typeCode == 104)
            && (HeardFrom(input).None? ==> KvNext(kv, input) == kv)
            && (HeardFrom(input).None? && d != Panicked ==> CallOf(input, answer) == Returned(false, None))
  {
    hide HoldsMessage, Wraps, Decode;
  }

  /** The host reads one message, with the two attributes of a report. */
  ghost predicate HostReadsCall(data: bytes, f: bytes, isRequest: bool, callId: bytes, payload: bytes) {
    var bodies := SplitFrames(data);
    && bodies.Some? && |bodies.value| == 1 && |bodies.value[0]| >= 2 && bodies.value[0][..2] == [0x50, 0x42]
    && var o := Decode(INFO, NO_INFO, bodies.value[0][2..]);
       && o.err == None && IsAscii("nRPC") && o.msg.protocolStr == Some(Ascii("nRPC"))
       && IsAscii("json_payload") && IsAscii("call_id") && |o.msg.attributes| == 2
       && o.msg.attributes[0].key == Ascii("json_payload") && o.msg.attributes[1].key == Ascii("call_id")
       && o.msg.attributes[1].val == callId && Converted(o.msg.attributes[0].val, f, isRequest, payload)
  }

  /** A call that reports to the host, unless there is no room for it. */
  ghost predicate Reported(call: HostCall, f: bytes, isRequest: bool, callId: bytes, payload: bytes) {
    call.Returned? ==>
      call.abort && (call.sent.Some? ==> HostReadsCall(call.sent.value, f, isRequest, callId, payload))
  }

  lemma CallReports(r: Report, direction: u8)
    ensures Reported(CallWith(Some(r), direction), r.function_, r.isRequest, r.callId, r.payload)
  {
    hide Decode, SplitFrames, Serialized, JsonOf, Converted;
    if Serialized([NrpcMsg(r, direction)]).Stream? {
      ReportReachesHost(r, direction);
      StartsWithMagic(r, direction);
      Names();
      JsonConverts(r);
      var m := NrpcMsg(r, direction);
      assert m.attributes[0].val == JsonOf(r) && m.attributes[1].val == r.callId;
      assert HostReadsCall(CallWith(Some(r), direction).sent.value, r.function_, r.isRequest, r.callId, r.payload);
    }
  }

  lemma StartsWithMagic(r: Report, direction: u8)
    requires Serialized([NrpcMsg(r, direction)]).Stream?
    ensures var bodies := SplitFrames(Serialized([NrpcMsg(r, direction)]).data);
            bodies.Some? && |bodies.value| == 1 && |bodies.value[0]| >= 2 && bodies.value[0][..2] == [0x50, 0x42]
  {
    hide Decode, SplitFrames, Serialized, JsonOf;
    EmptyWf();
    StreamMeansRoom([NrpcMsg(r, direction)]);
    StreamRoundTrip([NrpcMsg(r, direction)]);
  }

  /** Message j is the latest one before k that wants its answer at the subject of k. */
  predicate Asks(ms: seq<NatsMsg>, j: int, k: int)
    ensures Asks(ms, j, k) ==> 0 <= j < k < |ms|
  {
    && 0 <= j < k < |ms| && |ms[j].replyTo| > 0 && ms[j].replyTo == ms[k].subject
    && forall i :: j < i < k ==> ms[i].replyTo != ms[k].subject
  }

  lemma AsksIsLatest(ms: seq<NatsMsg>, j: int, k: nat)
    requires k < |ms|
    ensures Asks(ms, j, k) <==> IsLatest(ms[..k], ms[k].subject, j)
    ensures Asks(ms, j, k) ==> 0 <= j < k && ms[..k][j] == ms[j]
  {
    var h := ms[..k];
    assert forall i :: 0 <= i < k ==> h[i] == ms[i];
  }

  /** The answer to message k, in terms of the messages before it. */
  lemma ExpectedByAsks(ms: seq<NatsMsg>, k: nat)
    requires k < |ms|
    ensures var m, answer := ms[k], Expected(ms[..k], ms[k]);
            && (|m.replyTo| > 0 ==> answer == Some(Report(m.subject, true, m.replyTo, m.payload)))
            && (|m.replyTo| == 0 ==>
                  forall j :: Asks(ms, j, k) ==> answer == Some(Report(ms[j].subject, false, m.subject, m.payload)))
            && (|m.replyTo| == 0 && (forall j :: !Asks(ms, j, k)) ==> answer == None)
  {
    hide LatestRequest, Asks, IsLatest;
    var m, history := ms[k], ms[..k];
    var latest := LatestRequest(history, m.subject);
    forall j | Asks(ms, j, k) ensures 0 <= j < k && latest == Some(ms[j].subject) {
      AsksIsLatest(ms, j, k);
      LatestRequestIs(history, m.subject, ms[j].subject);
    }
    if latest.Some? {
      LatestRequestIs(history, m.subject, latest.value);
      var j :| IsLatest(history, m.subject, j) && history[j].subject == latest.value;
      AsksIsLatest(ms, j, k);
    }
  }

  /** The correlator, in terms of what is written and read: a message with a reply subject is
      reported as a request for its subject; one without as the answer to the latest request
      that wanted it there; and any other is passed on. */
  lemma RunConverts(base: seq<ParseCtx>, ms: seq<NatsMsg>, k: nat)
    requires |base| == |ms| && forall j :: 0 <= j < |base| ==> ValidCtx(base[j])
    requires k < |ms| && forall m :: m in ms ==> Sendable(m)
    ensures var inputs, m := InputsOf(base, ms), ms[k];
            var call := CallOf(inputs[k], n => Answer(KvAfter(inputs[..k]), n));
            && (|m.replyTo| > 0 ==> Reported(call, m.subject, true, m.replyTo, m.payload))
            && (|m.replyTo| == 0 ==>
                  forall j :: Asks(ms, j, k) ==> Reported(call, ms[j].subject, false, m.subject, m.payload))
            && (|m.replyTo| == 0 && (forall j :: !Asks(ms, j, k)) ==> call == Returned(false, None))
  {
    hide InputsOf, ValidCtx, Sendable, Reported, Expected, Asks;
    RunCorrelates(base, ms, k);
    ExpectedByAsks(ms, k);
    var answer := Expected(ms[..k], ms[k]);
    if answer.Some? { CallReports(answer.value, base[k].direction); }
  }
}
