/**
 Messages over the wire format: writing records, and the decoding loop every generated
 `UnmarshalVT` is an instance of.
 */
module Codec {
  import opened Machine
  import opened Varint
  import opened Wire

  // ---------------------------------------------------------------------------------------
  // Writing records
  // ---------------------------------------------------------------------------------------

  function EncRec(r: Rec): bytes {
    match r
    case VarintRec(num, raw) => EncVarint(if num < 0 then 0 else 8 * num) + EncVarint(raw)
    case DelimRec(num, data) => EncVarint(if num < 0 then 0 else 8 * num + 2) + EncVarint(|data|) + data
    case RawRec(data) => data
  }

  function EncRecs(rs: seq<Rec>): bytes {
    if rs == [] then [] else EncRec(rs[0]) + EncRecs(rs[1..])
  }

  /** Records that read back as themselves. */
  ghost predicate Good(kindOf: int -> Kind, r: Rec) {
    Sound(kindOf, r) && (r.VarintRec? ==> r.raw < TWO_64)
  }

  ghost predicate AllGood(kindOf: int -> Kind, rs: seq<Rec>) {
    forall r :: r in rs ==> Good(kindOf, r)
  }

  lemma {:induction false} EncRecsConcat(a: seq<Rec>, b: seq<Rec>)
    ensures EncRecs(a + b) == EncRecs(a) + EncRecs(b)
  {
    hide EncRec;
    if a == [] {
      assert a + b == b;
    } else {
      EncRecsConcat(a[1..], b);
      assert (a + b)[1..] == a[1..] + b;
      assert EncRecs(a + b) == EncRec(a[0]) + (EncRecs(a[1..]) + EncRecs(b));
    }
  }

  lemma {:induction false} EncRecsMember(rs: seq<Rec>, r: Rec)
    requires r in rs
    ensures |EncRec(r)| <= |EncRecs(rs)|
  {
    if r != rs[0] { EncRecsMember(rs[1..], r); }
  }

  lemma TagOfEnc(num: int, wireType: nat)
    requires 0 < num < TWO_32 / 2 && wireType < 8
    ensures TagOf(8 * num + wireType) == Tag(num, wireType)
  {
  }

  lemma ReadTagEnc(num: int, wireType: nat, rest: bytes)
    requires 0 < num < TWO_32 / 2 && wireType < 8 && wireType != 4
    ensures ReadTag(EncVarint(8 * num + wireType) + rest)
         == Ok(Tag(num, wireType), |EncVarint(8 * num + wireType)|)
  {
    hide EncVarint, ReadVarint, Truncate, TagOf;
    ReadEncU64(8 * num + wireType, rest);
    TagOfEnc(num, wireType);
  }

  lemma ReadDelimEnc(data: bytes, rest: bytes)
    requires |data| <= MAX_INT
    ensures ReadDelim(EncVarint(|data|) + data + rest) == Ok(data, |EncVarint(|data|) + data|)
  {
    hide EncVarint, ReadVarint;
    assert EncVarint(|data|) + data + rest == EncVarint(|data|) + (data + rest);
    ReadEncU64(|data|, data + rest);
  }

  /** Reading inverts writing, record by record, whatever follows. */
  lemma ReadEncRec(kindOf: int -> Kind, r: Rec, rest: bytes)
    requires Good(kindOf, r)
    ensures ReadRec(kindOf, EncRec(r) + rest) == Ok(r, |EncRec(r)|) && EncRec(r) != []
  {
    hide EncVarint, ReadVarint, ReadTag, ReadDelim;
    var b := EncRec(r) + rest;
    match r
    case VarintRec(num, raw) =>
      var tag := EncVarint(8 * num);
      assert b == tag + (EncVarint(raw) + rest);
      ReadTagEnc(num, 0, EncVarint(raw) + rest);
      assert b[|tag|..] == EncVarint(raw) + rest;
      ReadEncU64(raw, rest);
    case DelimRec(num, data) =>
      var tag := EncVarint(8 * num + 2);
      assert b == tag + (EncVarint(|data|) + data + rest);
      ReadTagEnc(num, 2, EncVarint(|data|) + data + rest);
      assert b[|tag|..] == EncVarint(|data|) + data + rest;
      ReadDelimEnc(data, rest);
    case RawRec(data) =>
      assert data[..|data|] == data;
      ReadRecLocal(kindOf, data, b);
  }

  // ---------------------------------------------------------------------------------------
  // Decoding
  // ---------------------------------------------------------------------------------------

  /** A decoder updates its message in place, so a failing one leaves what it stored so far. */
  datatype Outcome<+M> = Outcome(msg: M, err: Option<Error>)

  /** What one message type does with its records. */
  datatype Schema<!M> = Schema(
    kindOf: int -> Kind,
    setVarint: (M, int, nat) -> M,
    setDelim: (M, int, bytes) -> Outcome<M>,
    keep: (M, bytes) -> M
  )

  function Apply<M>(s: Schema<M>, m: M, r: Rec): Outcome<M> {
    match r
    case VarintRec(num, raw) => Outcome(s.setVarint(m, num, raw), None)
    case DelimRec(num, data) => s.setDelim(m, num, data)
    case RawRec(data) => Outcome(s.keep(m, data), None)
  }

  function ApplyAll<M>(s: Schema<M>, m: M, rs: seq<Rec>): Outcome<M> {
    if rs == [] then Outcome(m, None)
    else
      var o := Apply(s, m, rs[0]);
      if o.err.Some? then o else ApplyAll(s, o.msg, rs[1..])
  }

  /** `UnmarshalVT`: decodes b into the message m. */
  function Decode<M>(s: Schema<M>, m: M, b: bytes): Outcome<M>
    decreases |b|
  {
    if b == [] then Outcome(m, None)
    else
      match ReadRec(s.kindOf, b)
      case Bad(e) => Outcome(m, Some(e))
      case Ok(r, n) =>
        var o := Apply(s, m, r);
        if n == 0 || n > |b| || o.err.Some? then o else Decode(s, o.msg, b[n..])
  }

  /** One turn of the decoding loop. */
  lemma DecodeStep<M>(s: Schema<M>, m: M, b: bytes)
    requires b != [] && ReadRec(s.kindOf, b).Ok?
    ensures 0 < ReadRec(s.kindOf, b).n <= |b|
    ensures var o := Apply(s, m, ReadRec(s.kindOf, b).value);
            Decode(s, m, b) == if o.err.Some? then o else Decode(s, o.msg, b[ReadRec(s.kindOf, b).n..])
  {
    ReadRecLocal(s.kindOf, b, b);
  }

  /** One turn of the decoding loop, case by case as the generated code distinguishes them. */
  lemma DecodeCases<M>(s: Schema<M>, m: M, b: bytes)
    requires b != []
    ensures match ReadTag(b)
            case Bad(e) => Decode(s, m, b) == Outcome(m, Some(e))
            case Ok(tag, n) =>
              n <= |b| &&
              match s.kindOf(tag.num)
              case VarintKind =>
                if tag.wireType != 0 then Decode(s, m, b) == Outcome(m, Some(WrongWireType)) else
                (match ReadVarint(b[n..], 0)
                 case Bad(e) => Decode(s, m, b) == Outcome(m, Some(e))
                 case Ok(raw, k) =>
                   n + k <= |b| && Decode(s, m, b) == Decode(s, s.setVarint(m, tag.num, raw), b[n + k..]))
              case DelimKind =>
                if tag.wireType != 2 then Decode(s, m, b) == Outcome(m, Some(WrongWireType)) else
                (match ReadDelim(b[n..])
                 case Bad(e) => Decode(s, m, b) == Outcome(m, Some(e))
                 case Ok(data, k) =>
                   var o := s.setDelim(m, tag.num, data);
                   n + k <= |b| &&
                   Decode(s, m, b) == if o.err.Some? then o else Decode(s, o.msg, b[n + k..]))
              case UnknownKind =>
                match ReadUnknown(b)
                case Bad(e) => Decode(s, m, b) == Outcome(m, Some(e))
                case Ok(data, k) => k <= |b| && Decode(s, m, b) == Decode(s, s.keep(m, data), b[k..])
  {
    hide ReadTag, ReadDelim, ReadUnknown, ReadVarint;
    if ReadTag(b).Ok? { ReadTagLocal(b); }
    if ReadRec(s.kindOf, b).Ok? { ReadRecLocal(s.kindOf, b, b); }
  }

  lemma DecodeNothing<M>(s: Schema<M>, m: M)
    ensures Decode(s, m, []) == Outcome(m, None)
  {
  }

  /** Concatenation is merge ("Last One Wins"): decoding a ++ b is decoding a, then b into
      the result. */
  lemma {:induction false} DecodeConcat<M>(s: Schema<M>, m: M, a: bytes, b: bytes)
    requires Decode(s, m, a).err == None
    ensures Decode(s, m, a + b) == Decode(s, Decode(s, m, a).msg, b)
    decreases |a|
  {
    hide ReadRec, Apply;
    if a == [] {
      assert a + b == b;
    } else {
      var n := ReadRec(s.kindOf, a).n;
      DecodeStep(s, m, a);
      assert a[..n] <= a + b;
      ReadRecLocal(s.kindOf, a, a + b);
      DecodeStep(s, m, a + b);
      assert (a + b)[n..] == a[n..] + b;
      DecodeConcat(s, Apply(s, m, ReadRec(s.kindOf, a).value).msg, a[n..], b);
    }
  }

  /** Decoding written records applies them one after the other, then decodes the rest. */
  lemma {:induction false} DecodeRecs<M>(s: Schema<M>, m: M, rs: seq<Rec>, rest: bytes)
    requires AllGood(s.kindOf, rs)
    ensures var o := ApplyAll(s, m, rs);
            Decode(s, m, EncRecs(rs) + rest) == if o.err.Some? then o else Decode(s, o.msg, rest)
    decreases rs
  {
    hide ReadRec, Apply, EncRec, Good;
    if rs == [] {
      assert EncRecs(rs) + rest == rest;
    } else {
      var tail := EncRecs(rs[1..]) + rest;
      var b := EncRec(rs[0]) + tail;
      assert EncRecs(rs) + rest == b;
      ReadEncRec(s.kindOf, rs[0], tail);
      DecodeStep(s, m, b);
      assert b[|EncRec(rs[0])|..] == tail;
      DecodeRecs(s, Apply(s, m, rs[0]).msg, rs[1..], rest);
    }
  }

  lemma {:induction false} ApplyAllConcat<M>(s: Schema<M>, m: M, a: seq<Rec>, b: seq<Rec>)
    ensures var o := ApplyAll(s, m, a);
            ApplyAll(s, m, a + b) == if o.err.Some? then o else ApplyAll(s, o.msg, b)
    decreases a
  {
    hide Apply;
    if a == [] {
      assert a + b == b;
    } else {
      assert (a + b)[1..] == a[1..] + b;
      ApplyAllConcat(s, Apply(s, m, a[0]).msg, a[1..], b);
    }
  }

  /** The records of an input that splits into records all the way. */
  function Split(kindOf: int -> Kind, b: bytes): Option<seq<Rec>>
    decreases |b|
  {
    if b == [] then Some([])
    else
      match ReadRec(kindOf, b)
      case Bad(_) => None
      case Ok(r, n) =>
        if n == 0 || n > |b| then None else
        match Split(kindOf, b[n..])
        case None => None
        case Some(rs) => Some([r] + rs)
  }

  /** The decoder is a fold over the records of its input; on success the input does split,
      so it was consumed exactly. */
  lemma {:induction false} DecodeIsFold<M>(s: Schema<M>, m: M, b: bytes)
    ensures Split(s.kindOf, b).Some? ==> Decode(s, m, b) == ApplyAll(s, m, Split(s.kindOf, b).value)
    ensures Decode(s, m, b).err == None ==> Split(s.kindOf, b).Some?
    decreases |b|
  {
    hide ReadRec, Apply;
    if b != [] && ReadRec(s.kindOf, b).Ok? {
      var r, n := ReadRec(s.kindOf, b).value, ReadRec(s.kindOf, b).n;
      DecodeStep(s, m, b);
      DecodeIsFold(s, Apply(s, m, r).msg, b[n..]);
    }
  }

  // ---------------------------------------------------------------------------------------
  // Unknown fields
  // ---------------------------------------------------------------------------------------

  /** The byte string is a sequence of records that the message type does not know. */
  ghost predicate Unknown(kindOf: int -> Kind, u: bytes)
    decreases |u|
  {
    u == [] ||
    match ReadRec(kindOf, u)
    case Bad(_) => false
    case Ok(r, n) => r.RawRec? && 0 < n <= |u| && r.data == u[..n] && Unknown(kindOf, u[n..])
  }

  lemma {:induction false} UnknownConcat(kindOf: int -> Kind, u: bytes, v: bytes)
    requires Unknown(kindOf, u) && Unknown(kindOf, v)
    ensures Unknown(kindOf, u + v)
    decreases |u|
  {
    hide ReadRec;
    if u == [] {
      assert u + v == v;
    } else {
      var n := ReadRec(kindOf, u).n;
      assert u[..n] <= u + v;
      ReadRecLocal(kindOf, u, u + v);
      assert (u + v)[n..] == u[n..] + v && (u + v)[..n] == u[..n];
      UnknownConcat(kindOf, u[n..], v);
    }
  }

  lemma UnknownSingle(kindOf: int -> Kind, r: Rec)
    requires r.RawRec? && Sound(kindOf, r)
    ensures Unknown(kindOf, r.data)
  {
    assert r.data[|r.data|..] == [];
    assert r.data[..|r.data|] == r.data;
  }

  /** Keeping unknown fields accumulates their bytes. */
  ghost predicate Keeps<M(!new)>(s: Schema<M>) {
    && (forall m :: s.keep(m, []) == m)
    && (forall m, u, v :: s.keep(s.keep(m, u), v) == s.keep(m, u + v))
  }

  /** Unknown fields decode to themselves: all their bytes are kept, in order. */
  lemma {:induction false} DecodeUnknown<M(!new)>(s: Schema<M>, m: M, u: bytes)
    requires Unknown(s.kindOf, u) && Keeps(s)
    ensures Decode(s, m, u) == Outcome(s.keep(m, u), None)
    decreases |u|
  {
    hide ReadRec;
    if u != [] {
      var n := ReadRec(s.kindOf, u).n;
      DecodeStep(s, m, u);
      DecodeUnknown(s, s.keep(m, u[..n]), u[n..]);
      assert u[..n] + u[n..] == u;
    }
  }

  /** What every record keeps, a whole decoding run keeps. */
  lemma {:induction false} DecodePreserves<M(!new)>(s: Schema<M>, inv: M -> bool, m: M, b: bytes)
    requires inv(m)
    requires forall x, r :: inv(x) && Sound(s.kindOf, r) ==> inv(Apply(s, x, r).msg)
    ensures inv(Decode(s, m, b).msg)
    decreases |b|
  {
    hide ReadRec, Apply;
    if b != [] && ReadRec(s.kindOf, b).Ok? {
      DecodeStep(s, m, b);
      ReadRecSound(s.kindOf, b);
      var o := Apply(s, m, ReadRec(s.kindOf, b).value);
      DecodePreserves(s, inv, o.msg, b[ReadRec(s.kindOf, b).n..]);
    }
  }

  // ---------------------------------------------------------------------------------------
  // Records of optional and repeated fields
  // ---------------------------------------------------------------------------------------

  function OptDelim(num: int, o: Option<bytes>): seq<Rec> {
    if o.None? then [] else [DelimRec(num, o.value)]
  }

  function OptVarint(num: int, o: Option<nat>): seq<Rec> {
    if o.None? then [] else [VarintRec(num, o.value)]
  }

  function Repeated(num: int, items: seq<bytes>): seq<Rec> {
    if items == [] then [] else [DelimRec(num, items[0])] + Repeated(num, items[1..])
  }

  /** A proto3 field without presence is written only when it is not empty. */
  function NonEmpty(b: bytes): Option<bytes> {
    if b == [] then None else Some(b)
  }

  /** Records with the wire type of a field the message type knows. */
  ghost predicate KnownRec(kindOf: int -> Kind, r: Rec) {
    match r
    case VarintRec(num, raw) => 0 < num < TWO_32 / 2 && kindOf(num) == VarintKind && raw < TWO_64
    case DelimRec(num, _) => 0 < num < TWO_32 / 2 && kindOf(num) == DelimKind
    case RawRec(_) => false
  }

  ghost predicate AllKnown(kindOf: int -> Kind, rs: seq<Rec>) {
    forall r :: r in rs ==> KnownRec(kindOf, r)
  }

  /** Known records of a total size that fits an `int` read back as themselves. */
  lemma KnownRecsGood(kindOf: int -> Kind, rs: seq<Rec>)
    requires AllKnown(kindOf, rs) && |EncRecs(rs)| <= MAX_INT
    ensures AllGood(kindOf, rs)
  {
    hide EncRecs;
    forall r | r in rs ensures Good(kindOf, r) {
      EncRecsMember(rs, r);
    }
  }

  /** Applying an optional record that takes m to `next`, or an absent one. */
  lemma PeelDelim<M>(s: Schema<M>, m: M, num: int, o: Option<bytes>, rest: seq<Rec>, next: M)
    requires 0 < num < TWO_32 / 2 && s.kindOf(num) == DelimKind
    requires if o.None? then next == m else s.setDelim(m, num, o.value) == Outcome(next, None)
    ensures ApplyAll(s, m, OptDelim(num, o) + rest) == ApplyAll(s, next, rest)
    ensures AllKnown(s.kindOf, rest) ==> AllKnown(s.kindOf, OptDelim(num, o) + rest)
  {
    if o.None? {
      assert OptDelim(num, o) + rest == rest;
    } else {
      assert (OptDelim(num, o) + rest)[1..] == rest;
    }
  }

  lemma PeelVarint<M>(s: Schema<M>, m: M, num: int, o: Option<nat>, rest: seq<Rec>, next: M)
    requires 0 < num < TWO_32 / 2 && s.kindOf(num) == VarintKind && (o.Some? ==> o.value < TWO_64)
    requires next == if o.None? then m else s.setVarint(m, num, o.value)
    ensures ApplyAll(s, m, OptVarint(num, o) + rest) == ApplyAll(s, next, rest)
    ensures AllKnown(s.kindOf, rest) ==> AllKnown(s.kindOf, OptVarint(num, o) + rest)
  {
    if o.None? {
      assert OptVarint(num, o) + rest == rest;
    } else {
      assert (OptVarint(num, o) + rest)[1..] == rest;
    }
  }

  lemma ApplyNone<M>(s: Schema<M>, m: M)
    ensures ApplyAll(s, m, []) == Outcome(m, None) && AllKnown(s.kindOf, [])
  {
  }

  /** One group of records after another. */
  lemma ApplyBoth<M>(s: Schema<M>, m: M, a: seq<Rec>, b: seq<Rec>, next: M)
    requires ApplyAll(s, m, a) == Outcome(next, None) && AllKnown(s.kindOf, a)
    ensures ApplyAll(s, m, a + b) == ApplyAll(s, next, b)
    ensures AllKnown(s.kindOf, b) ==> AllKnown(s.kindOf, a + b)
  {
    ApplyAllConcat(s, m, a, b);
  }

  lemma {:induction false} RepeatedKnown(kindOf: int -> Kind, num: int, items: seq<bytes>)
    requires 0 < num < TWO_32 / 2 && kindOf(num) == DelimKind
    ensures AllKnown(kindOf, Repeated(num, items))
  {
    if items != [] { RepeatedKnown(kindOf, num, items[1..]); }
  }

  /** A message that was written as known records followed by unknown fields decodes to what
      the records build up, with the unknown fields kept. */
  lemma {:induction false} DecodeWritten<M(!new)>(s: Schema<M>, m: M, rs: seq<Rec>, known: M, u: bytes)
    requires AllKnown(s.kindOf, rs) && |EncRecs(rs)| <= MAX_INT
    requires ApplyAll(s, m, rs) == Outcome(known, None)
    requires Unknown(s.kindOf, u) && Keeps(s)
    ensures Decode(s, m, EncRecs(rs) + u) == Outcome(s.keep(known, u), None)
  {
    KnownRecsGood(s.kindOf, rs);
    DecodeRecs(s, m, rs, u);
    DecodeUnknown(s, known, u);
  }
}
