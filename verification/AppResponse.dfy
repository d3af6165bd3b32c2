/** The generated methods of `AppResponse`. */
module AppResponses {
  import opened Machine
  import opened Varint
  import opened Wire
  import opened Codec
  import opened Messages
  import opened Buffers

  class AppResponse {
    var status: Option<i32>
    var code: Option<i32>
    var exception: Option<bytes>
    var result: Option<bytes>
    var type_: Option<bytes>
    var endpoint: Option<bytes>
    var unknownFields: bytes

    /** The empty message `&AppResponse{}`. */
    constructor ()
      ensures Value() == NO_RESPONSE
    {
      status, code, exception, result, type_, endpoint, unknownFields := None, None, None, None, None, None, [];
    }

    /** A message with its fields set, as a composite literal. */
    constructor Filled(status: Option<i32>, code: Option<i32>, exception: Option<bytes>,
                       result: Option<bytes>, type_: Option<bytes>, endpoint: Option<bytes>)
      ensures Value() == ResponseMsg(status, code, exception, result, type_, endpoint, [])
    {
      this.status, this.code, this.exception := status, code, exception;
      this.result, this.type_, this.endpoint := result, type_, endpoint;
      unknownFields := [];
    }

    function Value(): ResponseMsg
      reads this
    {
      ResponseMsg(status, code, exception, result, type_, endpoint, unknownFields)
    }

    method CloneVT() returns (r: AppResponse)
      ensures fresh(r) && r.Value() == Value()
    {
      r := new AppResponse();
      r.status := status;
      r.code := code;
      r.exception := exception;
      r.result := result;
      r.type_ := type_;
      r.endpoint := endpoint;
      if |unknownFields| > 0 { r.unknownFields := unknownFields; }
    }

    predicate EqualVT(that: AppResponse): (r: bool)
      reads this, that
      ensures r <==> Value() == that.Value()
    {
      if this == that then true
      else
        && status == that.status
        && code == that.code
        && exception == that.exception
        && result == that.result
        && type_ == that.type_
        && endpoint == that.endpoint
        && unknownFields == that.unknownFields
    }

    /** The size of the encoding, as far as an `int` can hold it. */
    method SizeVT() returns (n: int)
      ensures n == ToInt(|EncResponse(Value())|)
    {
      hide ToInt, Plus, EncRecs, OptDelim, OptVarint, SizeOfVarint;
      PlusIsSum();
      n := 0;
      n := Plus(n, VarintSize(1, RawI32(status)));
      n := Plus(n, VarintSize(1, RawI32(code)));
      n := Plus(n, DelimSize(1, exception));
      n := Plus(n, DelimSize(1, result));
      n := Plus(n, DelimSize(1, type_));
      n := Plus(n, DelimSize(1, endpoint));
      n := Plus(n, |unknownFields|);
      ghost var r6: seq<Rec> := OptDelim(6, endpoint) + [];
      ghost var r5 := OptDelim(5, type_) + r6;
      ghost var r4 := OptDelim(4, result) + r5;
      ghost var r3 := OptDelim(3, exception) + r4;
      ghost var r2 := OptVarint(2, RawI32(code)) + r3;
      DelimSizeExact(6, endpoint, []);
      DelimSizeExact(5, type_, r6);
      DelimSizeExact(4, result, r5);
      DelimSizeExact(3, exception, r4);
      VarintSizeExact(2, RawI32(code), r3);
      VarintSizeExact(1, RawI32(status), r2);
      NoRecs();
    }

    /** Fills the end of dAtA[lo..hi] backwards; panics exactly when it is too short. */
    method MarshalToSizedBufferVT(dAtA: array<byte>, lo: nat, hi: nat) returns (n: Option<nat>)
      requires lo <= hi <= dAtA.Length <= MAX_INT
      modifies dAtA
      ensures n == Fits(lo, hi, EncResponse(Value()))
      ensures n.Some? ==> dAtA[hi - n.value..hi] == EncResponse(Value())
      ensures Untouched(dAtA, lo, if n.Some? then hi - n.value else PANICKED, hi)
    {
      hide Written, EncRecs, OptDelim, OptVarint;
      ghost var r6: seq<Rec> := OptDelim(6, endpoint) + [];
      ghost var r5 := OptDelim(5, type_) + r6;
      ghost var r4 := OptDelim(4, result) + r5;
      ghost var r3 := OptDelim(3, exception) + r4;
      ghost var r2 := OptVarint(2, RawI32(code)) + r3;
      ghost var u := unknownFields;
      var i := PutUnknown(dAtA, lo, hi, unknownFields);
      i := PutOptDelim(dAtA, lo, i, hi, [0x32], endpoint, 6, [], u);
      i := PutOptDelim(dAtA, lo, i, hi, [0x2a], type_, 5, r6, u);
      i := PutOptDelim(dAtA, lo, i, hi, [0x22], result, 4, r5, u);
      i := PutOptDelim(dAtA, lo, i, hi, [0x1a], exception, 3, r4, u);
      i := PutOptVarint(dAtA, lo, i, hi, [0x10], RawI32(code), 2, r3, u);
      i := PutOptVarint(dAtA, lo, i, hi, [0x8], RawI32(status), 1, r2, u);
      Finished(dAtA, lo, i, hi, EncResponse(Value()));
      n := Reported(hi, i);
    }

    method UnmarshalVT(dAtA: bytes) returns (err: Option<Error>)
      requires |dAtA| <= MAX_INT
      modifies this
      ensures Outcome(Value(), err) == Decode(RESPONSE, old(Value()), dAtA)
    {
      hide Decode, ReadRec, ReadTag, ReadDelim, ReadUnknown, ReadVarint, Truncate, ToI32;
      var iNdEx := 0;
      assert dAtA[0..] == dAtA;
      while iNdEx < |dAtA|
        invariant iNdEx <= |dAtA|
        invariant Decode(RESPONSE, Value(), dAtA[iNdEx..]) == Decode(RESPONSE, old(Value()), dAtA)
        decreases |dAtA| - iNdEx
      {
        var preIndex := iNdEx;
        ghost var b := dAtA[preIndex..];
        DecodeCases(RESPONSE, Value(), b);
        var e, tag, next := DecodeTag(dAtA, iNdEx);
        if e.Some? {
          return e;
        }
        iNdEx := next;
        if 1 <= tag.num <= 2 {
          if tag.wireType != 0 {
            return Some(WrongWireType);
          }
          var v;
          assert dAtA[iNdEx..] == b[iNdEx - preIndex..];
          ReadVarintBounds(dAtA[iNdEx..], 0);
          e, v, next := DecodeVarint(dAtA, iNdEx, Bits32);
          if e.Some? {
            return e;
          }
          ToIntOfU64(ReadVarint(dAtA[iNdEx..], 0).value);
          match tag.num {
            case 1 => status := Some(ToI32(v));
            case 2 => code := Some(ToI32(v));
          }
        } else if 3 <= tag.num <= 6 {
          if tag.wireType != 2 {
            return Some(WrongWireType);
          }
          var s;
          assert dAtA[iNdEx..] == b[iNdEx - preIndex..];
          e, s, next := DecodeDelim(dAtA, iNdEx, Bits64);
          if e.Some? {
            return e;
          }
          match tag.num {
            case 3 => exception := Some(s);
            case 4 => result := Some(s);
            case 5 => type_ := Some(s);
            case 6 => endpoint := Some(s);
          }
        } else {
          var u;
          e, u, next := DecodeSkip(dAtA, preIndex);
          if e.Some? {
            return e;
          }
          unknownFields := unknownFields + u;
        }
        iNdEx := next;
        assert dAtA[iNdEx..] == b[iNdEx - preIndex..];
      }
      assert dAtA[iNdEx..] == [];
      DecodeNothing(RESPONSE, Value());
      return None;
    }
  }
}
