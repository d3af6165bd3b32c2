/** The generated methods of `KeyVal`. */
module KeyVals {
  import opened Machine
  import opened Varint
  import opened Wire
  import opened Codec
  import opened Messages
  import opened Buffers

  class KeyVal {
    var key: bytes
    var val: bytes
    var unknownFields: bytes

    /** The empty message `&KeyVal{}`. */
    constructor ()
      ensures Value() == NO_KEYVAL
    {
      key, val, unknownFields := [], [], [];
    }

    /** A message with its fields set, as a composite literal. */
    constructor Filled(key: bytes, val: bytes)
      ensures Value() == KeyValMsg(key, val, [])
    {
      this.key, this.val := key, val;
      unknownFields := [];
    }

    function Value(): KeyValMsg
      reads this
    {
      KeyValMsg(key, val, unknownFields)
    }

    method CloneVT() returns (r: KeyVal)
      ensures fresh(r) && r.Value() == Value()
    {
      r := new KeyVal();
      r.key := key;
      r.val := val;
      if |unknownFields| > 0 { r.unknownFields := unknownFields; }
    }

    predicate EqualVT(that: KeyVal): (r: bool)
      reads this, that
      ensures r <==> Value() == that.Value()
    {
      if this == that then true
      else
        && key == that.key
        && val == that.val
        && unknownFields == that.unknownFields
    }

    /** The size of the encoding, as far as an `int` can hold it. */
    method SizeVT() returns (n: int)
      ensures n == ToInt(|EncKeyVal(Value())|)
    {
      hide ToInt, Plus, EncRecs, OptDelim, OptVarint, SizeOfVarint;
      PlusIsSum();
      n := 0;
      n := Plus(n, DelimSize(1, NonEmpty(key)));
      n := Plus(n, DelimSize(1, NonEmpty(val)));
      n := Plus(n, |unknownFields|);
      ghost var r2: seq<Rec> := OptDelim(2, NonEmpty(val)) + [];
      DelimSizeExact(2, NonEmpty(val), []);
      DelimSizeExact(1, NonEmpty(key), r2);
      NoRecs();
    }

    /** Fills the end of dAtA[lo..hi] backwards; panics exactly when it is too short. */
    method MarshalToSizedBufferVT(dAtA: array<byte>, lo: nat, hi: nat) returns (n: Option<nat>)
      requires lo <= hi <= dAtA.Length <= MAX_INT
      modifies dAtA
      ensures n == Fits(lo, hi, EncKeyVal(Value()))
      ensures n.Some? ==> dAtA[hi - n.value..hi] == EncKeyVal(Value())
      ensures Untouched(dAtA, lo, if n.Some? then hi - n.value else PANICKED, hi)
    {
      hide Written, EncRecs, OptDelim, OptVarint;
      ghost var r2: seq<Rec> := OptDelim(2, NonEmpty(val)) + [];
      ghost var u := unknownFields;
      var i := PutUnknown(dAtA, lo, hi, unknownFields);
      i := PutOptDelim(dAtA, lo, i, hi, [0x12], NonEmpty(val), 2, [], u);
      i := PutOptDelim(dAtA, lo, i, hi, [0xa], NonEmpty(key), 1, r2, u);
      Finished(dAtA, lo, i, hi, EncKeyVal(Value()));
      n := Reported(hi, i);
    }

    method UnmarshalVT(dAtA: bytes) returns (err: Option<Error>)
      requires |dAtA| <= MAX_INT
      modifies this
      ensures Outcome(Value(), err) == Decode(KEYVAL, old(Value()), dAtA)
    {
      hide Decode, ReadRec, ReadTag, ReadDelim, ReadUnknown, ReadVarint, Truncate, ToI32;
      var iNdEx := 0;
      assert dAtA[0..] == dAtA;
      while iNdEx < |dAtA|
        invariant iNdEx <= |dAtA|
        invariant Decode(KEYVAL, Value(), dAtA[iNdEx..]) == Decode(KEYVAL, old(Value()), dAtA)
        decreases |dAtA| - iNdEx
      {
        var preIndex := iNdEx;
        ghost var b := dAtA[preIndex..];
        DecodeCases(KEYVAL, Value(), b);
        var e, tag, next := DecodeTag(dAtA, iNdEx);
        if e.Some? {
          return e;
        }
        iNdEx := next;
        if 1 <= tag.num <= 2 {
          if tag.wireType != 2 {
            return Some(WrongWireType);
          }
          var s;
          assert dAtA[iNdEx..] == b[iNdEx - preIndex..];
          e, s, next := DecodeDelim(dAtA, iNdEx, Bits64);
          if e.Some? {
            return e;
          }
          match tag.num {
            case 1 => key := s;
            case 2 => val := s;
          }
        } else {
          var u;
          e, u, next := DecodeSkip(dAtA, preIndex);
          if e.Some? {
            return e;
          }
          unknownFields := unknownFields + u;
        }
        iNdEx := next;
        assert dAtA[iNdEx..] == b[iNdEx - preIndex..];
      }
      assert dAtA[iNdEx..] == [];
      DecodeNothing(KEYVAL, Value());
      return None;
    }
  }
}
