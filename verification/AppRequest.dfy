/** The generated methods of `AppRequest`. */
module AppRequests {
  import opened Machine
  import opened Varint
  import opened Wire
  import opened Codec
  import opened Messages
  import opened Buffers

  class AppRequest {
    var version: Option<bytes>
    var type_: Option<bytes>
    var domain: Option<bytes>
    var resource: Option<bytes>
    var endpoint: Option<bytes>
    var unknownFields: bytes

    /** The empty message `&AppRequest{}`. */
    constructor ()
      ensures Value() == NO_REQUEST
    {
      version, type_, domain, resource, endpoint, unknownFields := None, None, None, None, None, [];
    }

    /** A message with its fields set, as a composite literal. */
    constructor Filled(version: Option<bytes>, type_: Option<bytes>, domain: Option<bytes>,
                       resource: Option<bytes>, endpoint: Option<bytes>)
      ensures Value() == RequestMsg(version, type_, domain, resource, endpoint, [])
    {
      this.version, this.type_, this.domain := version, type_, domain;
      this.resource, this.endpoint := resource, endpoint;
      unknownFields := [];
    }

    function Value(): RequestMsg
      reads this
    {
      RequestMsg(version, type_, domain, resource, endpoint, unknownFields)
    }

    method CloneVT() returns (r: AppRequest)
      ensures fresh(r) && r.Value() == Value()
    {
      r := new AppRequest();
      r.version := version;
      r.type_ := type_;
      r.domain := domain;
      r.resource := resource;
      r.endpoint := endpoint;
      if |unknownFields| > 0 { r.unknownFields := unknownFields; }
    }

    predicate EqualVT(that: AppRequest): (r: bool)
      reads this, that
      ensures r <==> Value() == that.Value()
    {
      if this == that then true
      else
        && version == that.version
        && type_ == that.type_
        && domain == that.domain
        && resource == that.resource
        && endpoint == that.endpoint
        && unknownFields == that.unknownFields
    }

    /** The size of the encoding, as far as an `int` can hold it. */
    method SizeVT() returns (n: int)
      ensures n == ToInt(|EncRequest(Value())|)
    {
      hide ToInt, Plus, EncRecs, OptDelim, OptVarint, SizeOfVarint;
      PlusIsSum();
      n := 0;
      n := Plus(n, DelimSize(1, version));
      n := Plus(n, DelimSize(1, type_));
      n := Plus(n, DelimSize(1, domain));
      n := Plus(n, DelimSize(1, resource));
      n := Plus(n, DelimSize(1, endpoint));
      n := Plus(n, |unknownFields|);
      ghost var r5: seq<Rec> := OptDelim(5, endpoint) + [];
      ghost var r4 := OptDelim(4, resource) + r5;
      ghost var r3 := OptDelim(3, domain) + r4;
      ghost var r2 := OptDelim(2, type_) + r3;
      DelimSizeExact(5, endpoint, []);
      DelimSizeExact(4, resource, r5);
      DelimSizeExact(3, domain, r4);
      DelimSizeExact(2, type_, r3);
      DelimSizeExact(1, version, r2);
      NoRecs();
    }

    /** Fills the end of dAtA[lo..hi] backwards; panics exactly when it is too short. */
    method MarshalToSizedBufferVT(dAtA: array<byte>, lo: nat, hi: nat) returns (n: Option<nat>)
      requires lo <= hi <= dAtA.Length <= MAX_INT
      modifies dAtA
      ensures n == Fits(lo, hi, EncRequest(Value()))
      ensures n.Some? ==> dAtA[hi - n.value..hi] == EncRequest(Value())
      ensures Untouched(dAtA, lo, if n.Some? then hi - n.value else PANICKED, hi)
    {
      hide Written, EncRecs, OptDelim, OptVarint;
      ghost var r5: seq<Rec> := OptDelim(5, endpoint) + [];
      ghost var r4 := OptDelim(4, resource) + r5;
      ghost var r3 := OptDelim(3, domain) + r4;
      ghost var r2 := OptDelim(2, type_) + r3;
      ghost var u := unknownFields;
      var i := PutUnknown(dAtA, lo, hi, unknownFields);
      i := PutOptDelim(dAtA, lo, i, hi, [0x2a], endpoint, 5, [], u);
      i := PutOptDelim(dAtA, lo, i, hi, [0x22], resource, 4, r5, u);
      i := PutOptDelim(dAtA, lo, i, hi, [0x1a], domain, 3, r4, u);
      i := PutOptDelim(dAtA, lo, i, hi, [0x12], type_, 2, r3, u);
      i := PutOptDelim(dAtA, lo, i, hi, [0xa], version, 1, r2, u);
      Finished(dAtA, lo, i, hi, EncRequest(Value()));
      n := Reported(hi, i);
    }

    method UnmarshalVT(dAtA: bytes) returns (err: Option<Error>)
      requires |dAtA| <= MAX_INT
      modifies this
      ensures Outcome(Value(), err) == Decode(REQUEST, old(Value()), dAtA)
    {
      hide Decode, ReadRec, ReadTag, ReadDelim, ReadUnknown, ReadVarint, Truncate, ToI32;
      var iNdEx := 0;
      assert dAtA[0..] == dAtA;
      while iNdEx < |dAtA|
        invariant iNdEx <= |dAtA|
        invariant Decode(REQUEST, Value(), dAtA[iNdEx..]) == Decode(REQUEST, old(Value()), dAtA)
        decreases |dAtA| - iNdEx
      {
        var preIndex := iNdEx;
        ghost var b := dAtA[preIndex..];
        DecodeCases(REQUEST, Value(), b);
        var e, tag, next := DecodeTag(dAtA, iNdEx);
        if e.Some? {
          return e;
        }
        iNdEx := next;
        if 1 <= tag.num <= 5 {
          if tag.wireType != 2 {
            return Some(WrongWireType);
          }
          var s;
          assert dAtA[iNdEx..] == b[iNdEx - preIndex..];
          e, s, next := DecodeDelim(dAtA, iNdEx, Bits64);
          if e.Some? {
            return e;
          }
          match tag.num {
            case 1 => version := Some(s);
            case 2 => type_ := Some(s);
            case 3 => domain := Some(s);
            case 4 => resource := Some(s);
            case 5 => endpoint := Some(s);
          }
        } else {
          var u;
          e, u, next := DecodeSkip(dAtA, preIndex);
          if e.Some? {
            return e;
          }
          unknownFields := unknownFields + u;
        }
        iNdEx := next;
        assert dAtA[iNdEx..] == b[iNdEx - preIndex..];
      }
      assert dAtA[iNdEx..] == [];
      DecodeNothing(REQUEST, Value());
      return None;
    }
  }
}
