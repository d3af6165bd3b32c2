/**
 The wire format of the messages, spelled out: which tag bytes announce which field, what a
 decoder stores for them, in which order the writers put them, and what each malformed input
 is reported as. Everything here is in terms of the bytes themselves.
 */
module Tables {
  import opened Machine
  import opened Varint
  import opened Wire
  import opened Codec
  import opened Messages
  import opened Buffers

  // ---------------------------------------------------------------------------------------
  // Reading: the field behind each tag
  // ---------------------------------------------------------------------------------------

  /** A field of bytes: its tag, its length and the bytes. */
  function Str(tag: bytes, d: bytes): bytes {
    tag + EncVarint(|d|) + d
  }

  function Num(tag: bytes, raw: nat): bytes {
    tag + EncVarint(raw)
  }

  lemma DelimField<M>(s: Schema<M>, m: M, num: nat, d: bytes)
    requires 0 < num < TWO_32 / 2 && s.kindOf(num) == DelimKind && |d| <= MAX_INT
    ensures Decode(s, m, EncVarint(8 * num + 2) + EncVarint(|d|) + d) == s.setDelim(m, num, d)
  {
    hide Decode, EncVarint;
    var r := DelimRec(num, d);
    OneRecord(r);
    assert EncRecs([r]) + [] == EncVarint(8 * num + 2) + EncVarint(|d|) + d;
    DecodeRecs(s, m, [r], []);
    assert [r][1..] == [];
    DecodeNothing(s, s.setDelim(m, num, d).msg);
  }

  lemma VarintField<M>(s: Schema<M>, m: M, num: nat, raw: u64)
    requires 0 < num < TWO_32 / 2 && s.kindOf(num) == VarintKind
    ensures Decode(s, m, EncVarint(8 * num) + EncVarint(raw)) == Outcome(s.setVarint(m, num, raw), None)
  {
    hide Decode, EncVarint;
    var r := VarintRec(num, raw);
    OneRecord(r);
    assert EncRecs([r]) + [] == EncVarint(8 * num) + EncVarint(raw);
    DecodeRecs(s, m, [r], []);
    assert [r][1..] == [];
    DecodeNothing(s, s.setVarint(m, num, raw));
  }

  lemma OneRecord(r: Rec)
    ensures EncRecs([r]) == EncRec(r)
  {
    hide EncRec;
    assert [r][1..] == [] && EncRecs([]) == [];
  }

  /** Tags of one byte, and of two. */
  lemma ShortTag(tag: byte)
    requires tag < 128
    ensures EncVarint(tag) == [tag]
  {
  }

  lemma LongTag(low: byte, high: byte)
    requires 128 <= low && 0 < high < 128
    ensures EncVarint(low - 128 + 128 * high) == [low, high]
  {
    assert (low - 128 + 128 * high) / 128 == high && EncVarint(high) == [high];
  }

  lemma ThreeBytes(low: byte, middle: byte, high: byte)
    requires 128 <= low && 128 <= middle && 0 < high < 128
    ensures EncVarint(low - 128 + 128 * (middle - 128) + 16384 * high) == [low, middle, high]
  {
    assert (low - 128 + 128 * (middle - 128) + 16384 * high) / 128 == middle - 128 + 128 * high;
    LongTag(middle, high);
  }

  lemma NatsTable(m: NatsMsg, d: bytes)
    requires |d| <= MAX_INT
    ensures Decode(NATS, m, Str([0xa], d)) == Outcome(m.(subject := d), None)
    ensures Decode(NATS, m, Str([0x12], d)) == Outcome(m.(replyTo := d), None)
    ensures Decode(NATS, m, Str([0x1a], d)) == Outcome(m.(payload := d), None)
  {
    hide Decode, EncVarint;
    ShortTag(0xa); ShortTag(0x12); ShortTag(0x1a);
    DelimField(NATS, m, 1, d);
    DelimField(NATS, m, 2, d);
    DelimField(NATS, m, 3, d);
  }

  lemma KeyValTable(m: KeyValMsg, d: bytes)
    requires |d| <= MAX_INT
    ensures Decode(KEYVAL, m, Str([0xa], d)) == Outcome(m.(key := d), None)
    ensures Decode(KEYVAL, m, Str([0x12], d)) == Outcome(m.(val := d), None)
  {
    hide Decode, EncVarint;
    ShortTag(0xa); ShortTag(0x12);
    DelimField(KEYVAL, m, 1, d);
    DelimField(KEYVAL, m, 2, d);
  }

  lemma RequestTable(m: RequestMsg, d: bytes)
    requires |d| <= MAX_INT
    ensures Decode(REQUEST, m, Str([0xa], d)) == Outcome(m.(version := Some(d)), None)
    ensures Decode(REQUEST, m, Str([0x12], d)) == Outcome(m.(type_ := Some(d)), None)
    ensures Decode(REQUEST, m, Str([0x1a], d)) == Outcome(m.(domain := Some(d)), None)
    ensures Decode(REQUEST, m, Str([0x22], d)) == Outcome(m.(resource := Some(d)), None)
    ensures Decode(REQUEST, m, Str([0x2a], d)) == Outcome(m.(endpoint := Some(d)), None)
  {
    hide Decode, EncVarint;
    ShortTag(0xa); ShortTag(0x12); ShortTag(0x1a); ShortTag(0x22); ShortTag(0x2a);
    DelimField(REQUEST, m, 1, d);
    DelimField(REQUEST, m, 2, d);
    DelimField(REQUEST, m, 3, d);
    DelimField(REQUEST, m, 4, d);
    DelimField(REQUEST, m, 5, d);
  }

  lemma TraceTable(m: TraceMsg, d: bytes)
    requires |d| <= MAX_INT
    ensures Decode(TRACE, m, Str([0xa], d)) == Outcome(m.(traceId := Some(d)), None)
    ensures Decode(TRACE, m, Str([0x12], d)) == Outcome(m.(spanId := Some(d)), None)
    ensures Decode(TRACE, m, Str([0x1a], d)) == Outcome(m.(parentSpanId := Some(d)), None)
    ensures Decode(TRACE, m, Str([0x22], d)) == Outcome(m.(xRequestId := Some(d)), None)
    ensures Decode(TRACE, m, Str([0x2a], d)) == Outcome(m.(httpProxyClient := Some(d)), None)
    ensures Decode(TRACE, m, Str([0x32], d)) == Outcome(m.(traceIds := m.traceIds + [d]), None)
  {
    hide Decode, EncVarint;
    ShortTag(0xa); ShortTag(0x12); ShortTag(0x1a); ShortTag(0x22); ShortTag(0x2a); ShortTag(0x32);
    DelimField(TRACE, m, 1, d);
    DelimField(TRACE, m, 2, d);
    DelimField(TRACE, m, 3, d);
    DelimField(TRACE, m, 4, d);
    DelimField(TRACE, m, 5, d);
    DelimField(TRACE, m, 6, d);
  }

  /** The low 32 bits of a varint, as a signed number. */
  function Signed32(raw: nat): int {
    var low := raw % 0x1_0000_0000;
    if low < 0x8000_0000 then low else low - 0x1_0000_0000
  }

  lemma ResponseTable(m: ResponseMsg, d: bytes)
    requires |d| <= MAX_INT
    ensures Decode(RESPONSE, m, Str([0x1a], d)) == Outcome(m.(exception := Some(d)), None)
    ensures Decode(RESPONSE, m, Str([0x22], d)) == Outcome(m.(result := Some(d)), None)
    ensures Decode(RESPONSE, m, Str([0x2a], d)) == Outcome(m.(type_ := Some(d)), None)
    ensures Decode(RESPONSE, m, Str([0x32], d)) == Outcome(m.(endpoint := Some(d)), None)
  {
    hide Decode, EncVarint;
    ShortTag(0x1a); ShortTag(0x22); ShortTag(0x2a); ShortTag(0x32);
    DelimField(RESPONSE, m, 3, d);
    DelimField(RESPONSE, m, 4, d);
    DelimField(RESPONSE, m, 5, d);
    DelimField(RESPONSE, m, 6, d);
  }

  lemma ResponseNumbers(m: ResponseMsg, raw: u64)
    ensures Decode(RESPONSE, m, Num([0x8], raw)) == Outcome(m.(status := Some(Signed32(raw))), None)
    ensures Decode(RESPONSE, m, Num([0x10], raw)) == Outcome(m.(code := Some(Signed32(raw))), None)
  {
    hide Decode, EncVarint;
    ShortTag(0x8); ShortTag(0x10);
    VarintField(RESPONSE, m, 1, raw);
    VarintField(RESPONSE, m, 2, raw);
  }

  lemma InfoNumbers(m: InfoMsg, raw: u64)
    ensures var v := raw % 0x1_0000_0000;
            && Decode(INFO, m, Num([0x8], raw)) == Outcome(m.(reqLen := Some(v)), None)
            && Decode(INFO, m, Num([0x10], raw)) == Outcome(m.(respLen := Some(v)), None)
            && Decode(INFO, m, Num([0x18], raw)) == Outcome(m.(requestId := Some(v)), None)
            && Decode(INFO, m, Num([0x80, 0x2], raw)) == Outcome(m.(bizType := Some(v)), None)
  {
    hide Decode, EncVarint;
    ShortTag(0x8); ShortTag(0x10); ShortTag(0x18); LongTag(0x80, 0x2);
    VarintField(INFO, m, 1, raw);
    VarintField(INFO, m, 2, raw);
    VarintField(INFO, m, 3, raw);
    VarintField(INFO, m, 32, raw);
  }

  /** A flag is false exactly for a number whose low bits, as many as an `int` has, are zero. */
  lemma InfoFlags(m: InfoMsg, raw: u64)
    ensures var flag := if INT_WIDTH.Bits32? then raw % 0x1_0000_0000 != 0 else raw != 0;
            && Decode(INFO, m, Num([0xa8, 0x1], raw)) == Outcome(m.(isEnd := Some(flag)), None)
            && Decode(INFO, m, Num([0xb0, 0x1], raw)) == Outcome(m.(isAsync := Some(flag)), None)
            && Decode(INFO, m, Num([0xb8, 0x1], raw)) == Outcome(m.(isReversed := Some(flag)), None)
  {
    hide Decode, EncVarint;
    LongTag(0xa8, 0x1); LongTag(0xb0, 0x1); LongTag(0xb8, 0x1);
    VarintField(INFO, m, 21, raw);
    VarintField(INFO, m, 22, raw);
    VarintField(INFO, m, 23, raw);
  }

  lemma InfoStrings(m: InfoMsg, d: bytes)
    requires |d| <= MAX_INT
    ensures Decode(INFO, m, Str([0x6a], d)) == Outcome(m.(protocolStr := Some(d)), None)
    ensures Decode(INFO, m, Str([0x8a, 0x2], d)) == Outcome(m.(bizCode := Some(d)), None)
    ensures Decode(INFO, m, Str([0x92, 0x2], d)) == Outcome(m.(bizScenario := Some(d)), None)
    ensures Decode(INFO, m, Str([0x9a, 0x2], d)) == Outcome(m.(bizResponseCode := Some(d)), None)
  {
    hide Decode, EncVarint;
    ShortTag(0x6a); LongTag(0x8a, 0x2); LongTag(0x92, 0x2); LongTag(0x9a, 0x2);
    DelimField(INFO, m, 13, d);
    DelimField(INFO, m, 33, d);
    DelimField(INFO, m, 34, d);
    DelimField(INFO, m, 35, d);
  }

  /** Nested messages: a request, a response and a trace are decoded into the one there is, an
      attribute is appended; an arm that replaces the other one does so only once decoded. */
  lemma InfoMessages(m: InfoMsg, d: bytes)
    requires |d| <= MAX_INT
    ensures var o := Decode(REQUEST, if m.arm.ReqArm? then m.arm.req
                                     else RequestMsg(None, None, None, None, None, []), d);
            Decode(INFO, m, Str([0x52], d))
            == Outcome(if o.err == None || m.arm.ReqArm? then m.(arm := ReqArm(o.msg)) else m, o.err)
    ensures var o := Decode(RESPONSE, if m.arm.RespArm? then m.arm.resp
                                      else ResponseMsg(None, None, None, None, None, None, []), d);
            Decode(INFO, m, Str([0x5a], d))
            == Outcome(if o.err == None || m.arm.RespArm? then m.(arm := RespArm(o.msg)) else m, o.err)
    ensures var o := Decode(TRACE, if m.trace.Some? then m.trace.value
                                   else TraceMsg(None, None, None, None, None, [], []), d);
            Decode(INFO, m, Str([0x62], d)) == Outcome(m.(trace := Some(o.msg)), o.err)
    ensures var o := Decode(KEYVAL, KeyValMsg([], [], []), d);
            Decode(INFO, m, Str([0xfa, 0x1], d)) == Outcome(m.(attributes := m.attributes + [o.msg]), o.err)
  {
    hide Decode, EncVarint;
    ShortTag(0x52); ShortTag(0x5a); ShortTag(0x62); LongTag(0xfa, 0x1);
    DelimField(INFO, m, 10, d);
    DelimField(INFO, m, 11, d);
    DelimField(INFO, m, 12, d);
    DelimField(INFO, m, 31, d);
  }

  // ---------------------------------------------------------------------------------------
  // Writing: the order of the fields
  // ---------------------------------------------------------------------------------------

  function StrOpt(tag: bytes, o: Option<bytes>): bytes {
    if o.None? then [] else Str(tag, o.value)
  }

  function NumOpt(tag: bytes, o: Option<nat>): bytes {
    if o.None? then [] else Num(tag, o.value)
  }

  /** A field without presence is left out when it is empty. */
  function StrFull(tag: bytes, d: bytes): bytes {
    if d == [] then [] else Str(tag, d)
  }

  function Strs(tag: bytes, ds: seq<bytes>): bytes {
    if ds == [] then [] else Str(tag, ds[0]) + Strs(tag, ds[1..])
  }

  lemma StrStep(num: nat, o: Option<bytes>, rest: seq<Rec>, u: bytes)
    ensures EncRecs(OptDelim(num, o) + rest) + u == StrOpt(EncVarint(8 * num + 2), o) + (EncRecs(rest) + u)
  {
    hide EncVarint;
    OptDelimBytes(num, o, rest);
  }

  lemma NumStep(num: nat, o: Option<nat>, rest: seq<Rec>, u: bytes)
    ensures EncRecs(OptVarint(num, o) + rest) + u == NumOpt(EncVarint(8 * num), o) + (EncRecs(rest) + u)
  {
    hide EncVarint;
    OptVarintBytes(num, o, rest);
  }

  lemma {:induction false} StrsStep(num: nat, ds: seq<bytes>)
    ensures EncRecs(Repeated(num, ds)) == Strs(EncVarint(8 * num + 2), ds)
    decreases |ds|
  {
    hide EncVarint;
    if ds != [] {
      StrsStep(num, ds[1..]);
      StrStep(num, Some(ds[0]), Repeated(num, ds[1..]), []);
      assert Repeated(num, ds) == OptDelim(num, Some(ds[0])) + Repeated(num, ds[1..]);
      assert EncRecs(Repeated(num, ds)) + [] == EncRecs(Repeated(num, ds));
      assert EncRecs(Repeated(num, ds[1..])) + [] == EncRecs(Repeated(num, ds[1..]));
    }
  }

  lemma NatsBytes(m: NatsMsg)
    ensures EncNats(m)
         == StrFull([0xa], m.subject) + (StrFull([0x12], m.replyTo) + (StrFull([0x1a], m.payload) + m.unknown))
  {
    hide EncRecs, EncVarint, OptDelim;
    ShortTag(0xa); ShortTag(0x12); ShortTag(0x1a);
    var r3: seq<Rec> := OptDelim(3, NonEmpty(m.payload)) + [];
    StrStep(3, NonEmpty(m.payload), [], m.unknown);
    StrStep(2, NonEmpty(m.replyTo), r3, m.unknown);
    StrStep(1, NonEmpty(m.subject), OptDelim(2, NonEmpty(m.replyTo)) + r3, m.unknown);
    NoRecs();
    assert EncRecs([]) + m.unknown == m.unknown;
  }

  lemma KeyValBytes(m: KeyValMsg)
    ensures EncKeyVal(m) == StrFull([0xa], m.key) + (StrFull([0x12], m.val) + m.unknown)
  {
    hide EncRecs, EncVarint, OptDelim;
    ShortTag(0xa); ShortTag(0x12);
    StrStep(2, NonEmpty(m.val), [], m.unknown);
    StrStep(1, NonEmpty(m.key), OptDelim(2, NonEmpty(m.val)) + [], m.unknown);
    NoRecs();
    assert EncRecs([]) + m.unknown == m.unknown;
  }

  lemma RequestBytes(m: RequestMsg)
    ensures EncRequest(m) == StrOpt([0xa], m.version) + (StrOpt([0x12], m.type_) + (StrOpt([0x1a], m.domain)
                             + (StrOpt([0x22], m.resource) + (StrOpt([0x2a], m.endpoint) + m.unknown))))
  {
    hide EncRecs, EncVarint, OptDelim, StrOpt;
    ShortTag(0xa); ShortTag(0x12); ShortTag(0x1a); ShortTag(0x22); ShortTag(0x2a);
    var u := m.unknown;
    var r5: seq<Rec> := OptDelim(5, m.endpoint) + [];
    var r4 := OptDelim(4, m.resource) + r5;
    var r3 := OptDelim(3, m.domain) + r4;
    StrStep(5, m.endpoint, [], u);
    StrStep(4, m.resource, r5, u);
    StrStep(3, m.domain, r4, u);
    StrStep(2, m.type_, r3, u);
    StrStep(1, m.version, OptDelim(2, m.type_) + r3, u);
    NoRecs();
    assert EncRecs([]) + u == u;
  }

  /** An int32 on the wire: as it is, or with 64 bits in two's complement. */
  function Wide(o: Option<i32>): Option<nat> {
    match o
    case None => None
    case Some(v) => Some(if v >= 0 then v else v + 0x1_0000_0000_0000_0000)
  }

  lemma ResponseBytes(m: ResponseMsg)
    ensures EncResponse(m) == NumOpt([0x8], Wide(m.status)) + (NumOpt([0x10], Wide(m.code))
                              + (StrOpt([0x1a], m.exception) + (StrOpt([0x22], m.result)
                              + (StrOpt([0x2a], m.type_) + (StrOpt([0x32], m.endpoint) + m.unknown)))))
  {
    hide EncRecs, EncVarint, OptDelim, OptVarint, StrOpt, NumOpt;
    ShortTag(0x8); ShortTag(0x10); ShortTag(0x1a); ShortTag(0x22); ShortTag(0x2a); ShortTag(0x32);
    var u := m.unknown;
    var r6: seq<Rec> := OptDelim(6, m.endpoint) + [];
    var r5 := OptDelim(5, m.type_) + r6;
    var r4 := OptDelim(4, m.result) + r5;
    var r3 := OptDelim(3, m.exception) + r4;
    StrStep(6, m.endpoint, [], u);
    StrStep(5, m.type_, r6, u);
    StrStep(4, m.result, r5, u);
    StrStep(3, m.exception, r4, u);
    NumStep(2, RawI32(m.code), r3, u);
    NumStep(1, RawI32(m.status), OptVarint(2, RawI32(m.code)) + r3, u);
    NoRecs();
    assert EncRecs([]) + u == u;
  }

  lemma TraceBytes(m: TraceMsg)
    ensures EncTrace(m) == StrOpt([0xa], m.traceId) + (StrOpt([0x12], m.spanId) + (StrOpt([0x1a], m.parentSpanId)
                           + (StrOpt([0x22], m.xRequestId) + (StrOpt([0x2a], m.httpProxyClient)
                           + (Strs([0x32], m.traceIds) + m.unknown)))))
  {
    hide EncRecs, EncVarint, OptDelim, StrOpt, Strs, Repeated;
    ShortTag(0xa); ShortTag(0x12); ShortTag(0x1a); ShortTag(0x22); ShortTag(0x2a); ShortTag(0x32);
    var u := m.unknown;
    var r6 := Repeated(6, m.traceIds);
    var r5 := OptDelim(5, m.httpProxyClient) + r6;
    var r4 := OptDelim(4, m.xRequestId) + r5;
    var r3 := OptDelim(3, m.parentSpanId) + r4;
    StrsStep(6, m.traceIds);
    StrStep(5, m.httpProxyClient, r6, u);
    StrStep(4, m.xRequestId, r5, u);
    StrStep(3, m.parentSpanId, r4, u);
    StrStep(2, m.spanId, r3, u);
    StrStep(1, m.traceId, OptDelim(2, m.spanId) + r3, u);
  }

  // The groups of an AppInfo, in front of the bytes u.

  function LengthBytes(m: InfoMsg): bytes {
    NumOpt([0x8], RawU32(m.reqLen)) + (NumOpt([0x10], RawU32(m.respLen)) + NumOpt([0x18], RawU32(m.requestId)))
  }

  function ArmBytes(a: Arm): bytes {
    match a
    case NoArm => []
    case ReqArm(req) => Str([0x52], EncRequest(req))
    case RespArm(resp) => Str([0x5a], EncResponse(resp))
  }

  function MiddleBytes(m: InfoMsg): bytes {
    (if m.trace.None? then [] else Str([0x62], EncTrace(m.trace.value))) + StrOpt([0x6a], m.protocolStr)
  }

  function FlagBytes(m: InfoMsg): bytes {
    (if m.isEnd.None? then [] else [0xa8, 0x1, if m.isEnd.value then 1 else 0])
    + ((if m.isAsync.None? then [] else [0xb0, 0x1, if m.isAsync.value then 1 else 0])
    + (if m.isReversed.None? then [] else [0xb8, 0x1, if m.isReversed.value then 1 else 0]))
  }

  function AttributeBytes(kvs: seq<KeyValMsg>): bytes {
    if kvs == [] then [] else Str([0xfa, 0x1], EncKeyVal(kvs[0])) + AttributeBytes(kvs[1..])
  }

  function BizBytes(m: InfoMsg): bytes {
    NumOpt([0x80, 0x2], RawU32(m.bizType)) + (StrOpt([0x8a, 0x2], m.bizCode) + (StrOpt([0x92, 0x2], m.bizScenario)
    + StrOpt([0x9a, 0x2], m.bizResponseCode)))
  }

  lemma LengthGroup(m: InfoMsg)
    ensures EncRecs(LengthRecs(m)) == LengthBytes(m)
  {
    hide EncRecs, EncVarint, OptVarint, NumOpt;
    ShortTag(0x8); ShortTag(0x10); ShortTag(0x18);
    var r3: seq<Rec> := OptVarint(3, RawU32(m.requestId)) + [];
    NumStep(3, RawU32(m.requestId), [], []);
    NumStep(2, RawU32(m.respLen), r3, []);
    NumStep(1, RawU32(m.reqLen), OptVarint(2, RawU32(m.respLen)) + r3, []);
    NoRecs();
    assert EncRecs(LengthRecs(m)) + [] == EncRecs(LengthRecs(m));
    assert NumOpt([0x18], RawU32(m.requestId)) + [] == NumOpt([0x18], RawU32(m.requestId));
  }

  lemma ArmGroup(a: Arm)
    ensures EncRecs(ArmRecs(a)) == ArmBytes(a)
  {
    hide EncVarint, EncRec, EncRequest, EncResponse;
    ShortTag(0x52); ShortTag(0x5a);
    match a
    case NoArm =>
    case ReqArm(req) => OneRecord(DelimRec(10, EncRequest(req))); DelimParts(10, EncRequest(req));
    case RespArm(resp) => OneRecord(DelimRec(11, EncResponse(resp))); DelimParts(11, EncResponse(resp));
  }

  lemma MiddleGroup(m: InfoMsg)
    ensures EncRecs(TraceAndProtocolRecs(m)) == MiddleBytes(m)
  {
    hide EncRecs, EncVarint, OptDelim, EncTrace;
    ShortTag(0x62); ShortTag(0x6a);
    StrStep(13, m.protocolStr, [], []);
    StrStep(12, EncTraceOpt(m.trace), OptDelim(13, m.protocolStr) + [], []);
    NoRecs();
    assert EncRecs(TraceAndProtocolRecs(m)) + [] == EncRecs(TraceAndProtocolRecs(m));
  }

  lemma FlagGroup(m: InfoMsg)
    ensures EncRecs(FlagRecs(m)) == FlagBytes(m)
  {
    hide EncRecs, EncVarint, OptVarint;
    LongTag(0xa8, 0x1); LongTag(0xb0, 0x1); LongTag(0xb8, 0x1);
    ShortTag(0); ShortTag(1);
    var r3: seq<Rec> := OptVarint(23, RawBool(m.isReversed)) + [];
    NumStep(23, RawBool(m.isReversed), [], []);
    NumStep(22, RawBool(m.isAsync), r3, []);
    NumStep(21, RawBool(m.isEnd), OptVarint(22, RawBool(m.isAsync)) + r3, []);
    NoRecs();
    assert EncRecs(FlagRecs(m)) + [] == EncRecs(FlagRecs(m));
  }

  lemma {:induction false} AttributeGroup(kvs: seq<KeyValMsg>)
    ensures EncRecs(Repeated(31, EncKeyVals(kvs))) == AttributeBytes(kvs)
    decreases |kvs|
  {
    hide EncVarint, EncKeyVal;
    LongTag(0xfa, 0x1);
    if kvs != [] {
      AttributeGroup(kvs[1..]);
      var items := EncKeyVals(kvs);
      assert items[1..] == EncKeyVals(kvs[1..]);
      StrStep(31, Some(items[0]), Repeated(31, items[1..]), []);
      assert Repeated(31, items) == OptDelim(31, Some(items[0])) + Repeated(31, items[1..]);
      assert EncRecs(Repeated(31, items)) + [] == EncRecs(Repeated(31, items));
      assert EncRecs(Repeated(31, items[1..])) + [] == EncRecs(Repeated(31, items[1..]));
    }
  }

  lemma BizGroup(m: InfoMsg)
    ensures EncRecs(BizRecs(m)) == BizBytes(m)
  {
    hide EncRecs, EncVarint, OptVarint, OptDelim, NumOpt, StrOpt;
    LongTag(0x80, 0x2); LongTag(0x8a, 0x2); LongTag(0x92, 0x2); LongTag(0x9a, 0x2);
    var r4: seq<Rec> := OptDelim(35, m.bizResponseCode) + [];
    var r3 := OptDelim(34, m.bizScenario) + r4;
    StrStep(35, m.bizResponseCode, [], []);
    StrStep(34, m.bizScenario, r4, []);
    StrStep(33, m.bizCode, r3, []);
    NumStep(32, RawU32(m.bizType), OptDelim(33, m.bizCode) + r3, []);
    NoRecs();
    assert EncRecs(BizRecs(m)) + [] == EncRecs(BizRecs(m));
    assert StrOpt([0x9a, 0x2], m.bizResponseCode) + [] == StrOpt([0x9a, 0x2], m.bizResponseCode);
  }

  /** The order of the writers: the oneof behind everything else, or, strictly, between the
      lengths and the trace. */
  lemma InfoBytes(m: InfoMsg)
    ensures EncInfo(m) == LengthBytes(m) + (MiddleBytes(m) + (FlagBytes(m) + (AttributeBytes(m.attributes)
                          + (BizBytes(m) + ArmBytes(m.arm))))) + m.unknown
    ensures EncInfoStrict(m) == LengthBytes(m) + (ArmBytes(m.arm) + (MiddleBytes(m) + (FlagBytes(m)
                                + (AttributeBytes(m.attributes) + BizBytes(m))))) + m.unknown
  {
    hide EncRecs, LengthRecs, ArmRecs, TraceAndProtocolRecs, FlagRecs, BizRecs, EncKeyVals, Repeated;
    hide LengthBytes, ArmBytes, MiddleBytes, FlagBytes, AttributeBytes, BizBytes;
    LengthGroup(m);
    ArmGroup(m.arm);
    MiddleGroup(m);
    FlagGroup(m);
    AttributeGroup(m.attributes);
    BizGroup(m);
    var a, f := LengthRecs(m), ArmRecs(m.arm);
    FromTwelve(TraceAndProtocolRecs(m), FlagRecs(m), AttributeRecs(m), BizRecs(m));
    EncRecsConcat(RecsFrom12(m), f);
    EncRecsConcat(a, RecsFrom12(m) + f);
    EncRecsConcat(f, RecsFrom12(m));
    EncRecsConcat(a, f + RecsFrom12(m));
  }

  lemma FromTwelve(b: seq<Rec>, c: seq<Rec>, d: seq<Rec>, e: seq<Rec>)
    ensures EncRecs(b + (c + (d + e))) == EncRecs(b) + (EncRecs(c) + (EncRecs(d) + EncRecs(e)))
  {
    hide EncRecs;
    EncRecsConcat(d, e);
    EncRecsConcat(c, d + e);
    EncRecsConcat(b, c + (d + e));
  }

  // ---------------------------------------------------------------------------------------
  // Malformed input
  // ---------------------------------------------------------------------------------------

  /** What every decoder says to a bad tag, leaving the message alone. */
  lemma BadTags<M>(s: Schema<M>, m: M, tag: byte, rest: bytes)
    ensures tag < 128 && tag % 8 == 4 ==> Decode(s, m, [tag] + rest) == Outcome(m, Some(EndGroup))
    ensures tag < 8 && tag != 4 ==> Decode(s, m, [tag] + rest) == Outcome(m, Some(IllegalTag))
    ensures tag >= 128 ==> Decode(s, m, [tag]) == Outcome(m, Some(UnexpectedEOF))
  {
    if tag < 128 {
      assert ReadVarint([tag] + rest, 0) == Ok(tag, 1);
    } else {
      LongVarint([tag], 0);
    }
  }

  /** A varint is cut off after its tenth byte, and at the end of the input. */
  lemma {:induction false} LongVarint(b: bytes, k: nat)
    requires k <= 10 && forall i :: 0 <= i < |b| ==> b[i] >= 128
    ensures ReadVarint(b, k) == Bad(if |b| + k >= 10 then IntOverflow else UnexpectedEOF)
    decreases |b|
  {
    if k < 10 && b != [] { LongVarint(b[1..], k + 1); }
  }

  lemma OverlongTag<M>(s: Schema<M>, m: M, b: bytes)
    requires |b| >= 10 && forall i :: 0 <= i < |b| ==> b[i] >= 128
    ensures Decode(s, m, b) == Outcome(m, Some(IntOverflow))
  {
    hide ReadVarint;
    LongVarint(b, 0);
  }

  /** What a length-delimited field, here the subject of a NATS message, is refused for. */
  lemma BadFields(m: NatsMsg, n: byte, rest: bytes)
    ensures Decode(NATS, m, [0x8] + rest) == Outcome(m, Some(WrongWireType))
    ensures Decode(NATS, m, [0xa]) == Outcome(m, Some(UnexpectedEOF))
    ensures n < 128 && |rest| < n ==> Decode(NATS, m, [0xa, n] + rest) == Outcome(m, Some(PastEnd))
    ensures Decode(NATS, m, [0xa] + EncVarint(0xFFFF_FFFF_FFFF_FFFF) + rest) == Outcome(m, Some(InvalidLength))
  {
    hide Decode, EncVarint, ReadVarint, ToInt;
    TagByte(m, 0x8, rest);
    TagByte(m, 0xa, []);
    TagByte(m, 0xa, [n] + rest);
    TagByte(m, 0xa, EncVarint(0xFFFF_FFFF_FFFF_FFFF) + rest);
    assert [0x8] + rest != [] && [0xa] + [] == [0xa] && [0xa] + ([n] + rest) == [0xa, n] + rest;
    LongVarint([], 0);
    ReadVarintFront([n] + rest, 0);
    ReadEncU64(0xFFFF_FFFF_FFFF_FFFF, rest);
    MinusOne();
    assert [0xa] + (EncVarint(0xFFFF_FFFF_FFFF_FFFF) + rest) == [0xa] + EncVarint(0xFFFF_FFFF_FFFF_FFFF) + rest;
  }

  lemma MinusOne()
    ensures ToInt(0xFFFF_FFFF_FFFF_FFFF) == -1
    ensures forall n: byte :: ToInt(n) == n
  {
  }

  lemma TagByte(m: NatsMsg, tag: byte, rest: bytes)
    requires 8 <= tag < 128 && tag % 8 != 4
    ensures ReadTag([tag] + rest) == Ok(Tag(tag / 8, tag % 8), 1) && ([tag] + rest)[1..] == rest
    ensures var b := [tag] + rest;
            match NATS.kindOf(tag / 8)
            case VarintKind => true
            case UnknownKind => true
            case DelimKind =>
              if tag % 8 != 2 then Decode(NATS, m, b) == Outcome(m, Some(WrongWireType))
              else (match ReadDelim(rest)
                    case Bad(e) => Decode(NATS, m, b) == Outcome(m, Some(e))
                    case Ok(_, _) => true)
  {
    hide Decode, ReadDelim;
    var b := [tag] + rest;
    assert ReadVarint(b, 0) == Ok(tag, 1);
    DecodeCases(NATS, m, b);
    assert b[1..] == rest;
  }
}
