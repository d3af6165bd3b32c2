/**
 "Last One Wins" for inputs of any origin. Decoding a byte string into a message amounts to
 merging in the message it decodes to by itself, as long as the oneof keeps to one arm; and
 exactly then, since an arm that gives way to the other and comes back has forgotten what the
 first message held.
 */
module Merging {
  import opened Machine
  import opened Varint
  import opened Wire
  import opened Codec
  import opened Messages
  import opened RoundTrip

  /** A change that every record commutes with commutes with decoding, errors included. */
  lemma {:induction false} DecodeCommutes<M(!new)>(s: Schema<M>, f: M -> M, m: M, b: bytes)
    requires forall x, r ::
               var o := Apply(s, x, r); Apply(s, f(x), r) == Outcome(f(o.msg), o.err)
    ensures var o := Decode(s, m, b); Decode(s, f(m), b) == Outcome(f(o.msg), o.err)
    decreases |b|
  {
    hide ReadRec, Apply;
    if b != [] && ReadRec(s.kindOf, b).Ok? {
      var r, n := ReadRec(s.kindOf, b).value, ReadRec(s.kindOf, b).n;
      DecodeStep(s, m, b);
      DecodeStep(s, f(m), b);
      DecodeCommutes(s, f, Apply(s, m, r).msg, b[n..]);
    }
  }

  lemma RequestStep(x: RequestMsg, y: RequestMsg, r: Rec)
    ensures var o := Apply(REQUEST, y, r);
            Apply(REQUEST, MergeRequest(x, y), r) == Outcome(MergeRequest(x, o.msg), o.err)
  {
    match r
    case VarintRec(_, _) =>
    case RawRec(data) => assert x.unknown + y.unknown + data == x.unknown + (y.unknown + data);
    case DelimRec(num, d) =>
      match num
      case 1 =>
      case 2 =>
      case 3 =>
      case 4 =>
      case 5 =>
      case _ =>
  }

  lemma RequestCommutes(x: RequestMsg, m: RequestMsg, d: bytes)
    ensures var o := Decode(REQUEST, m, d);
            Decode(REQUEST, MergeRequest(x, m), d) == Outcome(MergeRequest(x, o.msg), o.err)
  {
    hide Decode, Apply, MergeRequest;
    forall y, r ensures var o := Apply(REQUEST, y, r);
                        Apply(REQUEST, MergeRequest(x, y), r) == Outcome(MergeRequest(x, o.msg), o.err) {
      RequestStep(x, y, r);
    }
    DecodeCommutes(REQUEST, y => MergeRequest(x, y), m, d);
  }

  lemma ResponseStep(x: ResponseMsg, y: ResponseMsg, r: Rec)
    ensures var o := Apply(RESPONSE, y, r);
            Apply(RESPONSE, MergeResponse(x, y), r) == Outcome(MergeResponse(x, o.msg), o.err)
  {
    match r
    case VarintRec(num, _) =>
      match num {
        case 1 =>
        case 2 =>
        case _ =>
      }
    case RawRec(data) => assert x.unknown + y.unknown + data == x.unknown + (y.unknown + data);
    case DelimRec(num, d) =>
      match num
      case 3 =>
      case 4 =>
      case 5 =>
      case 6 =>
      case _ =>
  }

  lemma ResponseCommutes(x: ResponseMsg, m: ResponseMsg, d: bytes)
    ensures var o := Decode(RESPONSE, m, d);
            Decode(RESPONSE, MergeResponse(x, m), d) == Outcome(MergeResponse(x, o.msg), o.err)
  {
    hide Decode, Apply, MergeResponse;
    forall y, r ensures var o := Apply(RESPONSE, y, r);
                        Apply(RESPONSE, MergeResponse(x, y), r) == Outcome(MergeResponse(x, o.msg), o.err) {
      ResponseStep(x, y, r);
    }
    DecodeCommutes(RESPONSE, y => MergeResponse(x, y), m, d);
  }

  lemma TraceStep(x: TraceMsg, y: TraceMsg, r: Rec)
    ensures var o := Apply(TRACE, y, r);
            Apply(TRACE, MergeTrace(x, y), r) == Outcome(MergeTrace(x, o.msg), o.err)
  {
    match r
    case VarintRec(_, _) =>
    case RawRec(data) => assert x.unknown + y.unknown + data == x.unknown + (y.unknown + data);
    case DelimRec(num, d) =>
      match num
      case 1 =>
      case 2 =>
      case 3 =>
      case 4 =>
      case 5 =>
      case 6 => assert x.traceIds + y.traceIds + [d] == x.traceIds + (y.traceIds + [d]);
      case _ =>
  }

  lemma TraceCommutes(x: TraceMsg, m: TraceMsg, d: bytes)
    ensures var o := Decode(TRACE, m, d);
            Decode(TRACE, MergeTrace(x, m), d) == Outcome(MergeTrace(x, o.msg), o.err)
  {
    hide Decode, Apply, MergeTrace;
    forall y, r ensures var o := Apply(TRACE, y, r);
                        Apply(TRACE, MergeTrace(x, y), r) == Outcome(MergeTrace(x, o.msg), o.err) {
      TraceStep(x, y, r);
    }
    DecodeCommutes(TRACE, y => MergeTrace(x, y), m, d);
  }

  // Merging an empty message changes nothing.

  lemma NothingToMerge(q: RequestMsg, p: ResponseMsg, t: TraceMsg, x: InfoMsg)
    ensures MergeRequest(q, NO_REQUEST) == q && MergeResponse(p, NO_RESPONSE) == p
    ensures MergeTrace(t, NO_TRACE) == t && MergeInfo(x, NO_INFO) == x
  {
    assert q.unknown + [] == q.unknown && p.unknown + [] == p.unknown;
    assert t.unknown + [] == t.unknown && t.traceIds + [] == t.traceIds;
    assert x.unknown + [] == x.unknown && x.attributes + [] == x.attributes;
  }

  // ---------------------------------------------------------------------------------------
  // The oneof
  // ---------------------------------------------------------------------------------------

  const REQ := 10
  const RESP := 11

  ghost predicate Has(rs: seq<Rec>, num: int) {
    exists r :: r in rs && r.DelimRec? && r.num == num
  }

  /** The records set at most one arm of the oneof. */
  ghost predicate OneArm(rs: seq<Rec>) {
    !(Has(rs, REQ) && Has(rs, RESP))
  }

  /** The arm m has is not one that the records replace. */
  ghost predicate Stays(m: InfoMsg, rs: seq<Rec>) {
    && (m.arm.ReqArm? ==> !Has(rs, RESP))
    && (m.arm.RespArm? ==> !Has(rs, REQ))
  }

  lemma ReqCommutes(x: InfoMsg, m: InfoMsg, d: bytes)
    requires !m.arm.RespArm? && DecodeReq(m, d).err == None
    ensures DecodeReq(MergeInfo(x, m), d) == Outcome(MergeInfo(x, DecodeReq(m, d).msg), None)
  {
    hide Decode, MergeRequest, MergeResponse, MergeTraces;
    if x.arm.ReqArm? {
      NothingToMerge(x.arm.req, NO_RESPONSE, NO_TRACE, x);
      RequestCommutes(x.arm.req, if m.arm.ReqArm? then m.arm.req else NO_REQUEST, d);
    }
  }

  lemma RespCommutes(x: InfoMsg, m: InfoMsg, d: bytes)
    requires !m.arm.ReqArm? && DecodeResp(m, d).err == None
    ensures DecodeResp(MergeInfo(x, m), d) == Outcome(MergeInfo(x, DecodeResp(m, d).msg), None)
  {
    hide Decode, MergeRequest, MergeResponse, MergeTraces;
    if x.arm.RespArm? {
      NothingToMerge(NO_REQUEST, x.arm.resp, NO_TRACE, x);
      ResponseCommutes(x.arm.resp, if m.arm.RespArm? then m.arm.resp else NO_RESPONSE, d);
    }
  }

  lemma TraceFieldCommutes(x: InfoMsg, m: InfoMsg, d: bytes)
    ensures DecodeTrace(MergeInfo(x, m), d) == Outcome(MergeInfo(x, DecodeTrace(m, d).msg), DecodeTrace(m, d).err)
  {
    hide Decode, MergeArm, MergeTrace;
    if x.trace.Some? {
      NothingToMerge(NO_REQUEST, NO_RESPONSE, x.trace.value, x);
      TraceCommutes(x.trace.value, if m.trace.Some? then m.trace.value else NO_TRACE, d);
    }
  }

  lemma AttributeCommutes(x: InfoMsg, m: InfoMsg, d: bytes)
    ensures DecodeAttribute(MergeInfo(x, m), d)
         == Outcome(MergeInfo(x, DecodeAttribute(m, d).msg), DecodeAttribute(m, d).err)
  {
    hide Decode, MergeArm, MergeTraces;
    var kv := Decode(KEYVAL, NO_KEYVAL, d).msg;
    assert x.attributes + m.attributes + [kv] == x.attributes + (m.attributes + [kv]);
  }

  lemma ScalarCommutes(x: InfoMsg, m: InfoMsg, num: int, raw: nat)
    ensures InfoVarint(MergeInfo(x, m), num, raw) == MergeInfo(x, InfoVarint(m, num, raw))
  {
    hide Truncate, MergeArm, MergeTraces;
    match num
    case 1 =>
    case 2 =>
    case 3 =>
    case 21 =>
    case 22 =>
    case 23 =>
    case 32 =>
    case _ =>
  }

  lemma StringCommutes(x: InfoMsg, m: InfoMsg, num: int, d: bytes)
    requires num != 10 && num != 11 && num != 12 && num != 31
    ensures InfoDelim(MergeInfo(x, m), num, d) == Outcome(MergeInfo(x, InfoDelim(m, num, d).msg), None)
    ensures InfoDelim(m, num, d).err == None
  {
    hide DecodeReq, DecodeResp, DecodeTrace, DecodeAttribute, MergeArm, MergeTraces;
    match num
    case 13 =>
    case 33 =>
    case 34 =>
    case 35 =>
    case _ =>
  }

  lemma KeepCommutes(x: InfoMsg, m: InfoMsg, data: bytes)
    ensures InfoKeep(MergeInfo(x, m), data) == MergeInfo(x, InfoKeep(m, data))
  {
    hide MergeArm, MergeTraces;
    assert x.unknown + m.unknown + data == x.unknown + (m.unknown + data);
  }

  /** One record, on its way through a merge. */
  lemma MergeStep(x: InfoMsg, m: InfoMsg, r: Rec)
    requires Stays(m, [r]) && Apply(INFO, m, r).err == None
    ensures Apply(INFO, MergeInfo(x, m), r) == Outcome(MergeInfo(x, Apply(INFO, m, r).msg), None)
  {
    hide DecodeReq, DecodeResp, DecodeTrace, DecodeAttribute, MergeInfo, InfoVarint;
    match r
    case VarintRec(num, raw) => ScalarCommutes(x, m, num, raw);
    case RawRec(data) => KeepCommutes(x, m, data);
    case DelimRec(num, d) =>
      assert r in [r];
      if num == 10 {
        ReqCommutes(x, m, d);
      } else if num == 11 {
        RespCommutes(x, m, d);
      } else if num == 12 {
        TraceFieldCommutes(x, m, d);
      } else if num == 31 {
        AttributeCommutes(x, m, d);
      } else {
        StringCommutes(x, m, num, d);
      }
  }

  lemma StaysSplits(m: InfoMsg, rs: seq<Rec>)
    requires rs != []
    ensures Stays(m, rs) <==> Stays(m, [rs[0]]) && Stays(m, rs[1..])
  {
    HasSplits(rs, REQ);
    HasSplits(rs, RESP);
  }

  lemma HasSplits(rs: seq<Rec>, num: int)
    requires rs != []
    ensures Has(rs, num) <==> Has([rs[0]], num) || Has(rs[1..], num)
  {
    assert rs == [rs[0]] + rs[1..];
    if Has(rs, num) {
      var r :| r in rs && r.DelimRec? && r.num == num;
      assert r in [rs[0]] || r in rs[1..];
    }
    if Has([rs[0]], num) { assert rs[0] in [rs[0]] && rs[0] in rs; }
    if r :| r in rs[1..] && r.DelimRec? && r.num == num { assert r in rs; }
  }

  /** What one record does to the arm. */
  lemma ArmAfter(m: InfoMsg, r: Rec)
    requires Apply(INFO, m, r).err == None
    ensures var a := Apply(INFO, m, r).msg.arm;
            && (r.DelimRec? && r.num == REQ ==>
                  a.ReqArm? && (m.arm.ReqArm? || a == DecodeReq(NO_INFO, r.data).msg.arm))
            && (r.DelimRec? && r.num == RESP ==>
                  a.RespArm? && (m.arm.RespArm? || a == DecodeResp(NO_INFO, r.data).msg.arm))
            && (!(r.DelimRec? && (r.num == REQ || r.num == RESP)) ==> a == m.arm)
  {
    hide Decode;
  }

  /** A run of records with one arm commutes with merging. */
  lemma {:induction false} MergeRun(x: InfoMsg, m: InfoMsg, rs: seq<Rec>)
    requires OneArm(rs) && Stays(m, rs) && ApplyAll(INFO, m, rs).err == None
    ensures ApplyAll(INFO, MergeInfo(x, m), rs) == Outcome(MergeInfo(x, ApplyAll(INFO, m, rs).msg), None)
    decreases |rs|
  {
    hide MergeInfo, Apply, DecodeReq, DecodeResp;
    if rs != [] {
      var r := rs[0];
      StaysSplits(m, rs);
      HasSplits(rs, REQ);
      HasSplits(rs, RESP);
      MergeStep(x, m, r);
      ArmAfter(m, r);
      assert r in [r];
      MergeRun(x, Apply(INFO, m, r).msg, rs[1..]);
    }
  }

  /** With one arm, decoding into x merges into x what the input decodes to by itself. */
  lemma DecodeMerges(x: InfoMsg, b: bytes)
    requires Decode(INFO, NO_INFO, b).err == None && Split(InfoKind, b).Some? && OneArm(Split(InfoKind, b).value)
    ensures Decode(INFO, x, b) == Outcome(MergeInfo(x, Decode(INFO, NO_INFO, b).msg), None)
  {
    hide Decode, ApplyAll, MergeInfo, Split;
    DecodeIsFold(INFO, x, b);
    DecodeIsFold(INFO, NO_INFO, b);
    NothingToMerge(NO_REQUEST, NO_RESPONSE, NO_TRACE, x);
    MergeRun(x, NO_INFO, Split(InfoKind, b).value);
  }

  // ---------------------------------------------------------------------------------------
  // And only with one arm
  // ---------------------------------------------------------------------------------------

  lemma ArmAfterSame(m: InfoMsg, k: InfoMsg, r: Rec)
    requires m.arm == k.arm && Apply(INFO, m, r).err == None && Apply(INFO, k, r).err == None
    ensures Apply(INFO, m, r).msg.arm == Apply(INFO, k, r).msg.arm
  {
    hide Decode;
  }

  lemma HasLast(front: seq<Rec>, r: Rec, num: int)
    ensures Has(front + [r], num) <==> Has(front, num) || Has([r], num)
    ensures Has([r], num) <==> r.DelimRec? && r.num == num
  {
    var rs := front + [r];
    assert r in [r] && r in rs;
    if q :| q in front && q.DelimRec? && q.num == num { assert q in rs; }
  }

  /** The last arm set is the arm there is; once both have been set, it does not depend on
      the message the run started from. */
  lemma {:induction false} ArmForgets(x: InfoMsg, y: InfoMsg, rs: seq<Rec>)
    requires ApplyAll(INFO, x, rs).err == None && ApplyAll(INFO, y, rs).err == None
    ensures var a, b := ApplyAll(INFO, x, rs).msg.arm, ApplyAll(INFO, y, rs).msg.arm;
            && (Has(rs, REQ) && !Has(rs, RESP) ==> a.ReqArm? && b.ReqArm?)
            && (Has(rs, RESP) && !Has(rs, REQ) ==> a.RespArm? && b.RespArm?)
            && (Has(rs, REQ) && Has(rs, RESP) ==> a == b != NoArm)
    decreases |rs|
  {
    hide Apply, DecodeReq, DecodeResp, Has;
    if rs == [] {
      NoneHas();
    } else {
      var n := |rs| - 1;
      var front, r := rs[..n], rs[n];
      assert rs == front + [r];
      HasLast(front, r, REQ);
      HasLast(front, r, RESP);
      ApplyAllConcat(INFO, x, front, [r]);
      ApplyAllConcat(INFO, y, front, [r]);
      ArmForgets(x, y, front);
      var m, k := ApplyAll(INFO, x, front).msg, ApplyAll(INFO, y, front).msg;
      ApplyOne(m, r);
      ApplyOne(k, r);
      ArmAfter(m, r);
      ArmAfter(k, r);
      if m.arm == k.arm { ArmAfterSame(m, k, r); }
    }
  }

  lemma NoneHas()
    ensures !Has([], REQ) && !Has([], RESP)
  {
  }

  lemma ApplyOne(m: InfoMsg, r: Rec)
    ensures ApplyAll(INFO, m, [r]) == Apply(INFO, m, r)
  {
    hide Apply;
    assert [r][1..] == [];
  }

  /** A message whose arm shows whether it was merged or dropped: it carries an unknown field
      of the request or of the response type. */
  function Probe(a: Arm, u: bytes, v: bytes): InfoMsg {
    NO_INFO.(arm := if a.ReqArm? then ReqArm(NO_REQUEST.(unknown := u)) else RespArm(NO_RESPONSE.(unknown := v)))
  }

  lemma ProbeShows(m: InfoMsg, u: bytes, v: bytes)
    requires m.arm != NoArm && u != [] && v != []
    ensures MergeInfo(Probe(m.arm, u, v), m).arm != m.arm
    ensures Unknown(RequestKind, u) && Unknown(ResponseKind, v) ==> InfoWf(Probe(m.arm, u, v))
  {
    hide Unknown;
    EmptyWf();
    match m.arm
    case ReqArm(req) => assert |u + req.unknown| != |req.unknown|;
    case RespArm(resp) => assert |v + resp.unknown| != |resp.unknown|;
  }

  /** Decoding is merging, for every message a decoder can have produced, exactly for the
      inputs that keep to one arm. The other half needs that the skipper takes at least some
      unknown field u of a request and v of a response. */
  lemma DecodeIsMerge(b: bytes, u: bytes, v: bytes)
    ensures Decode(INFO, NO_INFO, b).err == None
            && u != [] && Unknown(RequestKind, u) && v != [] && Unknown(ResponseKind, v) ==>
              && Split(InfoKind, b).Some?
              && (OneArm(Split(InfoKind, b).value) <==>
                  forall x | InfoWf(x) ::
                    Decode(INFO, x, b) == Outcome(MergeInfo(x, Decode(INFO, NO_INFO, b).msg), None))
  {
    hide Decode, ApplyAll, MergeInfo, Split, OneArm, Unknown, InfoWf;
    DecodeIsFold(INFO, NO_INFO, b);
    var rs, m := Split(InfoKind, b), Decode(INFO, NO_INFO, b).msg;
    if Decode(INFO, NO_INFO, b).err == None {
      if OneArm(rs.value) {
        forall x | InfoWf(x) ensures Decode(INFO, x, b) == Outcome(MergeInfo(x, m), None) {
          DecodeMerges(x, b);
        }
      } else {
        TwoArms(b, u, v);
      }
    }
  }

  /** Such fields: number 7 with an empty varint, when the skipper takes what the wire format
      says. */
  lemma UnknownFieldExample()
    ensures WireSkip([0x38, 0]) == Some(2)
    ensures SKIP([0x38, 0]) == Some(2) ==> Unknown(RequestKind, [0x38, 0]) && Unknown(ResponseKind, [0x38, 0])
  {
    var b: bytes := [0x38, 0];
    assert b[1..] == [0] && b[2..] == [] && b[..2] == b;
    assert ReadVarint(b, 0) == Ok(0x38, 1) && ReadVarint(b[1..], 0) == Ok(0, 1);
    assert SkipOne(b, 0) == Some((2, 0));
  }

  lemma TwoArms(b: bytes, u: bytes, v: bytes)
    ensures var m, rs := Decode(INFO, NO_INFO, b).msg, Split(InfoKind, b);
            Decode(INFO, NO_INFO, b).err == None && rs.Some? && !OneArm(rs.value)
            && u != [] && Unknown(RequestKind, u) && v != [] && Unknown(ResponseKind, v) ==>
              var x := Probe(m.arm, u, v);
              InfoWf(x) && Decode(INFO, x, b) != Outcome(MergeInfo(x, m), None)
  {
    hide Decode, ApplyAll, MergeInfo, Split, Has, Probe, Unknown, InfoWf;
    var rs, m := Split(InfoKind, b), Decode(INFO, NO_INFO, b).msg;
    var x := Probe(m.arm, u, v);
    DecodeIsFold(INFO, NO_INFO, b);
    DecodeIsFold(INFO, x, b);
    if Decode(INFO, NO_INFO, b).err == None && rs.Some? && !OneArm(rs.value) && u != [] && v != [] {
      ArmForgets(NO_INFO, NO_INFO, rs.value);
      ProbeShows(m, u, v);
      if Decode(INFO, x, b).err == None { ArmForgets(x, NO_INFO, rs.value); }
    }
  }

  // ---------------------------------------------------------------------------------------
  // An input with two arms
  // ---------------------------------------------------------------------------------------

  /** An empty request, an empty response and an empty request. */
  const TWO_ARMS: bytes := [0x52, 0, 0x5a, 0, 0x52, 0]

  /** A message with nothing but the version of a request. */
  function Versioned(version: bytes): InfoMsg {
    NO_INFO.(arm := ReqArm(NO_REQUEST.(version := Some(version))))
  }

  /** Decoded into a message with a request, it leaves an empty request; merging what it
      decodes to by itself would have kept the version. */
  lemma TwoArmsExample(version: bytes)
    ensures InfoWf(Versioned(version))
    ensures Decode(INFO, NO_INFO, TWO_ARMS) == Decode(INFO, Versioned(version), TWO_ARMS)
         == Outcome(NO_INFO.(arm := ReqArm(NO_REQUEST)), None)
    ensures MergeInfo(Versioned(version), NO_INFO.(arm := ReqArm(NO_REQUEST))) == Versioned(version)
  {
    hide Decode;
    EmptyWf();
    ThreeRecords(NO_INFO);
    ThreeRecords(Versioned(version));
  }

  lemma ThreeRecords(x: InfoMsg)
    requires !x.arm.RespArm?
    ensures Decode(INFO, x, TWO_ARMS) == Outcome(x.(arm := ReqArm(NO_REQUEST)), None)
  {
    hide Decode, Apply, ApplyAll, EncRec;
    var rs := [DelimRec(10, []), DelimRec(11, []), DelimRec(10, [])];
    EmptyRecordBytes();
    assert EncRecs(rs) == TWO_ARMS by {
      assert rs[1..] == [rs[1], rs[2]] && rs[1..][1..] == [rs[2]] && [rs[2]][1..] == [];
    }
    assert TWO_ARMS + [] == TWO_ARMS;
    DecodeRecs(INFO, x, rs, []);
    ApplyThree(x, rs[0], rs[1], rs[2]);
    DecodeNothing(INFO, x.(arm := ReqArm(NO_REQUEST)));
  }

  lemma EmptyRecordBytes()
    ensures EncRec(DelimRec(10, [])) == [0x52, 0] && EncRec(DelimRec(11, [])) == [0x5a, 0]
  {
  }

  lemma ApplyThree(x: InfoMsg, p: Rec, q: Rec, r: Rec)
    requires !x.arm.RespArm? && p == r == DelimRec(10, []) && q == DelimRec(11, [])
    ensures ApplyAll(INFO, x, [p, q, r]) == Outcome(x.(arm := ReqArm(NO_REQUEST)), None)
  {
    hide Decode, ApplyAll;
    var x1 := x.(arm := if x.arm.ReqArm? then x.arm else ReqArm(NO_REQUEST));
    var x2 := x.(arm := RespArm(NO_RESPONSE));
    if x.arm.ReqArm? { DecodeNothing(REQUEST, x.arm.req); }
    DecodeNothing(REQUEST, NO_REQUEST);
    DecodeNothing(RESPONSE, NO_RESPONSE);
    ApplyOne(x, p);
    ApplyOne(x1, q);
    ApplyOne(x2, r);
    assert [p, q, r] == [p] + ([q] + [r]);
    ApplyAllConcat(INFO, x, [p], [q] + [r]);
    ApplyAllConcat(INFO, x1, [q], [r]);
  }
}
