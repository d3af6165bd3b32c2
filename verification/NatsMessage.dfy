/** The generated methods of `NatsMessage`. */
module NatsMessages {
  import opened Machine
  import opened Varint
  import opened Wire
  import opened Codec
  import opened Messages
  import opened Buffers

  class NatsMessage {
    var subject: bytes
    var replyTo: bytes
    var payload: bytes
    var unknownFields: bytes

    /** The empty message `&NatsMessage{}`. */
    constructor ()
      ensures Value() == NO_NATS
    {
      subject, replyTo, payload, unknownFields := [], [], [], [];
    }

    function Value(): NatsMsg
      reads this
    {
      NatsMsg(subject, replyTo, payload, unknownFields)
    }

    method CloneVT() returns (r: NatsMessage)
      ensures fresh(r) && r.Value() == Value()
    {
      r := new NatsMessage();
      r.subject := subject;
      r.replyTo := replyTo;
      r.payload := payload;
      if |unknownFields| > 0 { r.unknownFields := unknownFields; }
    }

    predicate EqualVT(that: NatsMessage): (r: bool)
      reads this, that
      ensures r <==> Value() == that.Value()
    {
      if this == that then true
      else
        && subject == that.subject
        && replyTo == that.replyTo
        && payload == that.payload
        && unknownFields == that.unknownFields
    }

    /** The size of the encoding, as far as an `int` can hold it. */
    method SizeVT() returns (n: int)
      ensures n == ToInt(|EncNats(Value())|)
    {
      hide ToInt, Plus, EncRecs, OptDelim, OptVarint, SizeOfVarint;
      PlusIsSum();
      n := 0;
      n := Plus(n, DelimSize(1, NonEmpty(subject)));
      n := Plus(n, DelimSize(1, NonEmpty(replyTo)));
      n := Plus(n, DelimSize(1, NonEmpty(payload)));
      n := Plus(n, |unknownFields|);
      ghost var r3: seq<Rec> := OptDelim(3, NonEmpty(payload)) + [];
      ghost var r2 := OptDelim(2, NonEmpty(replyTo)) + r3;
      DelimSizeExact(3, NonEmpty(payload), []);
      DelimSizeExact(2, NonEmpty(replyTo), r3);
      DelimSizeExact(1, NonEmpty(subject), r2);
      NoRecs();
    }

    /** Fills the end of dAtA[lo..hi] backwards; panics exactly when it is too short. */
    method MarshalToSizedBufferVT(dAtA: array<byte>, lo: nat, hi: nat) returns (n: Option<nat>)
      requires lo <= hi <= dAtA.Length <= MAX_INT
      modifies dAtA
      ensures n == Fits(lo, hi, EncNats(Value()))
      ensures n.Some? ==> dAtA[hi - n.value..hi] == EncNats(Value())
      ensures Untouched(dAtA, lo, if n.Some? then hi - n.value else PANICKED, hi)
    {
      hide Written, EncRecs, OptDelim, OptVarint;
      ghost var r3: seq<Rec> := OptDelim(3, NonEmpty(payload)) + [];
      ghost var r2 := OptDelim(2, NonEmpty(replyTo)) + r3;
      ghost var u := unknownFields;
      var i := PutUnknown(dAtA, lo, hi, unknownFields);
      i := PutOptDelim(dAtA, lo, i, hi, [0x1a], NonEmpty(payload), 3, [], u);
      i := PutOptDelim(dAtA, lo, i, hi, [0x12], NonEmpty(replyTo), 2, r3, u);
      i := PutOptDelim(dAtA, lo, i, hi, [0xa], NonEmpty(subject), 1, r2, u);
      Finished(dAtA, lo, i, hi, EncNats(Value()));
      n := Reported(hi, i);
    }

    method UnmarshalVT(dAtA: bytes) returns (err: Option<Error>)
      requires |dAtA| <= MAX_INT
      modifies this
      ensures Outcome(Value(), err) == Decode(NATS, old(Value()), dAtA)
    {
      hide Decode, ReadRec, ReadTag, ReadDelim, ReadUnknown, ReadVarint, Truncate, ToI32;
      var iNdEx := 0;
      assert dAtA[0..] == dAtA;
      while iNdEx < |dAtA|
        invariant iNdEx <= |dAtA|
        invariant Decode(NATS, Value(), dAtA[iNdEx..]) == Decode(NATS, old(Value()), dAtA)
        decreases |dAtA| - iNdEx
      {
        var preIndex := iNdEx;
        ghost var b := dAtA[preIndex..];
        DecodeCases(NATS, Value(), b);
        var e, tag, next := DecodeTag(dAtA, iNdEx);
        if e.Some? {
          return e;
        }
        iNdEx := next;
        if 1 <= tag.num <= 3 {
          if tag.wireType != 2 {
            return Some(WrongWireType);
          }
          var s;
          assert dAtA[iNdEx..] == b[iNdEx - preIndex..];
          e, s, next := DecodeDelim(dAtA, iNdEx, Bits64);
          if e.Some? {
            return e;
          }
          match tag.num {
            case 1 => subject := s;
            case 2 => replyTo := s;
            case 3 => payload := s;
          }
        } else {
          var u;
          e, u, next := DecodeSkip(dAtA, preIndex);
          if e.Some? {
            return e;
          }
          unknownFields := unknownFields + u;
        }
        iNdEx := next;
        assert dAtA[iNdEx..] == b[iNdEx - preIndex..];
      }
      assert dAtA[iNdEx..] == [];
      DecodeNothing(NATS, Value());
      return None;
    }
  }
}
