/**
 What `SizeVT` of an `AppInfo` returns. Sizes are added up in a platform `int`, and a nested
 size that has wrapped around to a negative number is taken for a length of ten varint bytes,
 so the result is the length of the encoding only as long as that fits an `int`.
 */
module Sizes {
  import opened Machine
  import opened Varint
  import opened Wire
  import opened Codec
  import opened Messages
  import opened Buffers

  // Sizes of the groups of fields.

  lemma LengthSize(v: InfoMsg)
    ensures |EncRecs(LengthRecs(v))|
         == VarintSize(1, RawU32(v.reqLen)) + VarintSize(1, RawU32(v.respLen)) + VarintSize(1, RawU32(v.requestId))
  {
    hide EncRecs, VarintSize, OptVarint;
    var r3: seq<Rec> := OptVarint(3, RawU32(v.requestId)) + [];
    VarintSizeExact(3, RawU32(v.requestId), []);
    VarintSizeExact(2, RawU32(v.respLen), r3);
    VarintSizeExact(1, RawU32(v.reqLen), OptVarint(2, RawU32(v.respLen)) + r3);
    NoRecs();
  }

  lemma TraceAndProtocolSize(v: InfoMsg)
    ensures |EncRecs(TraceAndProtocolRecs(v))| == DelimSize(1, EncTraceOpt(v.trace)) + DelimSize(1, v.protocolStr)
  {
    hide EncRecs, DelimSize, OptDelim;
    DelimSizeExact(13, v.protocolStr, []);
    DelimSizeExact(12, EncTraceOpt(v.trace), OptDelim(13, v.protocolStr) + []);
    NoRecs();
  }

  lemma FlagSize(v: InfoMsg)
    ensures |EncRecs(FlagRecs(v))|
         == (if v.isEnd.Some? then 3 else 0) + (if v.isAsync.Some? then 3 else 0)
            + (if v.isReversed.Some? then 3 else 0)
  {
    hide EncRecs, OptVarint;
    var r3: seq<Rec> := OptVarint(23, RawBool(v.isReversed)) + [];
    VarintSizeExact(23, RawBool(v.isReversed), []);
    VarintSizeExact(22, RawBool(v.isAsync), r3);
    VarintSizeExact(21, RawBool(v.isEnd), OptVarint(22, RawBool(v.isAsync)) + r3);
    assert SizeOfVarint(0) == 1 && SizeOfVarint(1) == 1;
    NoRecs();
  }

  lemma BizSize(v: InfoMsg)
    ensures |EncRecs(BizRecs(v))|
         == VarintSize(2, RawU32(v.bizType)) + DelimSize(2, v.bizCode) + DelimSize(2, v.bizScenario)
          + DelimSize(2, v.bizResponseCode)
  {
    hide EncRecs, VarintSize, DelimSize, OptVarint, OptDelim;
    var r4: seq<Rec> := OptDelim(35, v.bizResponseCode) + [];
    var r3 := OptDelim(34, v.bizScenario) + r4;
    var r2 := OptDelim(33, v.bizCode) + r3;
    DelimSizeExact(35, v.bizResponseCode, []);
    DelimSizeExact(34, v.bizScenario, r4);
    DelimSizeExact(33, v.bizCode, r3);
    VarintSizeExact(32, RawU32(v.bizType), r2);
    NoRecs();
  }

  lemma InfoSize(v: InfoMsg)
    ensures |EncInfo(v)|
         == |EncRecs(LengthRecs(v))| + |EncRecs(ArmRecs(v.arm))| + |EncRecs(TraceAndProtocolRecs(v))|
          + |EncRecs(FlagRecs(v))| + |EncRecs(AttributeRecs(v))| + |EncRecs(BizRecs(v))| + |v.unknown|
  {
    hide EncRecs, LengthRecs, ArmRecs, TraceAndProtocolRecs, FlagRecs, AttributeRecs, BizRecs;
    SuffixSize(AttributeRecs(v), BizRecs(v));
    SuffixSize(FlagRecs(v), AttributeRecs(v) + BizRecs(v));
    SuffixSize(TraceAndProtocolRecs(v), FlagRecs(v) + (AttributeRecs(v) + BizRecs(v)));
    SuffixSize(RecsFrom12(v), ArmRecs(v.arm));
    SuffixSize(LengthRecs(v), RecsFrom12(v) + ArmRecs(v.arm));
  }

  lemma {:induction false} EncKeyValsAt(kvs: seq<KeyValMsg>)
    ensures |EncKeyVals(kvs)| == |kvs|
    ensures forall k :: 0 <= k < |kvs| ==> EncKeyVals(kvs)[k] == EncKeyVal(kvs[k])
  {
    hide EncKeyVal;
    if kvs != [] { EncKeyValsAt(kvs[1..]); }
  }

  lemma NoKeyValBytes()
    ensures EncKeyVal(NO_KEYVAL) == []
  {
  }

  // ---------------------------------------------------------------------------------------
  // The size as it is computed
  // ---------------------------------------------------------------------------------------

  /** `tagLen + l + SizeOfVarint(uint64(l))` for the size l of a nested message. */
  function NestedSize(tagLen: nat, l: int): int
    requires -(INT_MOD / 2) <= l <= MAX_INT
  {
    tagLen + l + SizeOfVarint(U64OfInt(l))
  }

  function ArmSizeVT(a: Arm): int {
    match a
    case NoArm => 0
    case ReqArm(req) => NestedSize(1, ToInt(|EncRequest(req)|))
    case RespArm(resp) => NestedSize(1, ToInt(|EncResponse(resp)|))
  }

  function TraceSizeVT(t: Option<TraceMsg>): int {
    if t.None? then 0 else NestedSize(1, ToInt(|EncTrace(t.value)|))
  }

  function AttributesSizeVT(kvs: seq<KeyValMsg>): int {
    if kvs == [] then 0
    else
      var n := |kvs| - 1;
      AttributesSizeVT(kvs[..n]) + NestedSize(2, ToInt(|EncKeyVal(kvs[n])|))
  }

  /** `SizeVT`, of a value. */
  function InfoSizeVT(m: InfoMsg): (n: int)
    ensures -(INT_MOD / 2) <= n <= MAX_INT
  {
    ToInt(
      VarintSize(1, RawU32(m.reqLen)) + VarintSize(1, RawU32(m.respLen)) + VarintSize(1, RawU32(m.requestId))
      + ArmSizeVT(m.arm) + TraceSizeVT(m.trace) + DelimSize(1, m.protocolStr)
      + (if m.isEnd.Some? then 3 else 0) + (if m.isAsync.Some? then 3 else 0) + (if m.isReversed.Some? then 3 else 0)
      + AttributesSizeVT(m.attributes)
      + VarintSize(2, RawU32(m.bizType)) + DelimSize(2, m.bizCode) + DelimSize(2, m.bizScenario)
      + DelimSize(2, m.bizResponseCode) + |m.unknown|)
  }

  lemma NestedExact(num: nat, s: bytes)
    requires 0 < num < 2048 && |s| <= MAX_INT
    ensures |EncRec(DelimRec(num, s))| == NestedSize(if num < 16 then 1 else 2, ToInt(|s|))
    ensures |EncRecs([DelimRec(num, s)])| == |EncRec(DelimRec(num, s))| >= |s|
  {
    hide EncRec;
    DelimSizeExact(num, Some(s), []);
    OptDelimBytes(num, Some(s), []);
    assert OptDelim(num, Some(s)) + [] == [DelimRec(num, s)];
    DelimParts(num, s);
    NoRecs();
  }

  lemma ArmSizeExact(a: Arm)
    requires |EncRecs(ArmRecs(a))| <= MAX_INT
    ensures ArmSizeVT(a) == |EncRecs(ArmRecs(a))|
  {
    hide EncRec, EncRecs, EncRequest, EncResponse, NestedSize;
    match a
    case NoArm => NoRecs();
    case ReqArm(req) => ShorterThanRecord(10, EncRequest(req)); NestedExact(10, EncRequest(req));
    case RespArm(resp) => ShorterThanRecord(11, EncResponse(resp)); NestedExact(11, EncResponse(resp));
  }

  lemma ShorterThanRecord(num: nat, s: bytes)
    ensures |s| <= |EncRecs([DelimRec(num, s)])|
  {
    hide EncRec;
    OptDelimBytes(num, Some(s), []);
    assert OptDelim(num, Some(s)) + [] == [DelimRec(num, s)];
    DelimParts(num, s);
  }

  lemma TraceSizeExact(t: Option<TraceMsg>)
    requires DelimSize(1, EncTraceOpt(t)) <= MAX_INT
    ensures TraceSizeVT(t) == DelimSize(1, EncTraceOpt(t))
  {
    hide EncTrace, SizeOfVarint;
  }

  lemma {:induction false} AttributesSizeExact(kvs: seq<KeyValMsg>)
    requires |EncRecs(Repeated(31, EncKeyVals(kvs)))| <= MAX_INT
    ensures AttributesSizeVT(kvs) == |EncRecs(Repeated(31, EncKeyVals(kvs)))|
    decreases |kvs|
  {
    hide EncRecs, EncKeyVal, SizeOfVarint;
    if kvs == [] {
      NoRecs();
    } else {
      var n := |kvs| - 1;
      var items := EncKeyVals(kvs);
      EncKeyValsAt(kvs);
      EncKeyValsAt(kvs[..n]);
      assert items[..n] == EncKeyVals(kvs[..n]) && items[..n + 1] == items;
      RepeatedBack(31, items, n);
      AttributesSizeExact(kvs[..n]);
    }
  }

  /** The size is that of the encoding as long as an `int` can hold it. */
  lemma InfoSizeVTExact(m: InfoMsg)
    requires |EncInfo(m)| <= MAX_INT
    ensures InfoSizeVT(m) == |EncInfo(m)|
  {
    hide EncInfo, EncRecs, LengthRecs, ArmRecs, TraceAndProtocolRecs, FlagRecs, BizRecs, Repeated, EncKeyVals;
    hide VarintSize, DelimSize, ArmSizeVT, TraceSizeVT, AttributesSizeVT;
    InfoSize(m);
    LengthSize(m);
    ArmSizeExact(m.arm);
    TraceAndProtocolSize(m);
    TraceSizeExact(m.trace);
    FlagSize(m);
    AttributesSizeExact(m.attributes);
    BizSize(m);
  }

  // ---------------------------------------------------------------------------------------
  // Attributes of one size
  // ---------------------------------------------------------------------------------------

  lemma KeyValSize(kv: KeyValMsg)
    requires kv.key == [] && |kv.val| == 65536 && kv.unknown == []
    ensures |EncKeyVal(kv)| == 65540
  {
    hide EncRecs, SizeOfVarint, OptDelim;
    LengthsOfExample();
    DelimSizeExact(1, NonEmpty(kv.key), OptDelim(2, NonEmpty(kv.val)) + []);
    DelimSizeExact(2, NonEmpty(kv.val), []);
    NoRecs();
  }

  lemma LengthsOfExample()
    ensures SizeOfVarint(65536) == 3 && SizeOfVarint(65540) == 3
    ensures SizeOfVarint(0) == 1
  {
    SizeOfVarintExact(65536);
    SizeOfVarintExact(65540);
    assert 65536 / 128 == 512 && 512 / 128 == 4 && 65540 / 128 == 512;
    assert EncVarint(4) == [4] && |EncVarint(512)| == 2;
  }

  /** n attributes of a 64 KiB value each take 65545 bytes each, in any `int`. */
  lemma {:induction false} ManyAttributes(kvs: seq<KeyValMsg>)
    requires forall kv :: kv in kvs ==> kv.key == [] && |kv.val| == 65536 && kv.unknown == []
    ensures AttributesSizeVT(kvs) == |EncRecs(Repeated(31, EncKeyVals(kvs)))| == 65545 * |kvs|
    decreases |kvs|
  {
    hide EncRecs, EncKeyVal, SizeOfVarint;
    if kvs == [] {
      NoRecs();
    } else {
      var n := |kvs| - 1;
      var items := EncKeyVals(kvs);
      EncKeyValsAt(kvs);
      EncKeyValsAt(kvs[..n]);
      assert items[..n] == EncKeyVals(kvs[..n]) && items[..n + 1] == items;
      RepeatedBack(31, items, n);
      ManyAttributes(kvs[..n]);
      KeyValSize(kvs[n]);
      LengthsOfExample();
    }
  }
}
