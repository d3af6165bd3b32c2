/**
 The wire format one layer above varints: a message is a sequence of records, and every
 generated decoder is the same loop over records. The loop is written once, over a schema
 that says which field numbers a message knows and what it does with each of them.
 ("Message Structure" and "Last One Wins" of the Protocol Buffers Encoding specification.)
 */
module Wire {
  import opened Machine
  import opened Varint

  // ---------------------------------------------------------------------------------------
  // The runtime's skipper
  // ---------------------------------------------------------------------------------------

  /** What the decoders rely on: a skip takes at least the tag it starts from, a number of
      bytes that fits an `int`, and when those bytes are all there, the answer depends on
      them alone. */
  ghost predicate SkipContract(skip: bytes -> Option<nat>) {
    && (forall b :: skip(b).Some? ==>
          ReadVarint(b, 0).Ok? && 0 < ReadVarint(b, 0).n <= skip(b).value <= MAX_INT)
    && (forall b, c {:trigger skip(b), skip(c)} ::
          skip(b).Some? && skip(b).value <= |b| && b[..skip(b).value] <= c ==> skip(c) == skip(b))
  }

  /** Length of the payload that follows a tag, for the wire types that carry one. */
  function PayloadLength(wireType: nat, b: bytes): Option<nat> {
    match wireType
    case 0 => (match ReadVarint(b, 0) case Ok(_, n) => Some(n) case Bad(_) => None)
    case 1 => Some(8)
    case 2 => (match ReadVarint(b, 0)
               case Ok(raw, n) => if ToInt(raw) < 0 then None else Some(n + ToInt(raw))
               case Bad(_) => None)
    case 3 => Some(0)
    case 4 => Some(0)
    case 5 => Some(4)
    case _ => None
  }

  /** Skips one record inside `depth` open groups: its length, and the groups open after it. */
  function SkipOne(b: bytes, depth: nat): Option<(nat, nat)> {
    match ReadVarint(b, 0)
    case Bad(_) => None
    case Ok(raw, n) =>
      var wireType := Truncate(raw, Bits64) % 8;
      if n > |b| || n == 0 || (wireType == 4 && depth == 0) then None else
      match PayloadLength(wireType, b[n..])
      case None => None
      case Some(k) =>
        Some((n + k, if wireType == 3 then depth + 1 else if wireType == 4 then depth - 1 else depth))
  }

  /** Skips records until the groups opened so far are closed. */
  function SkipGroups(b: bytes, depth: nat): Option<nat>
    decreases |b|
  {
    match SkipOne(b, depth)
    case None => None
    case Some((n, inside)) =>
      if inside == 0 then Some(n)
      else if n >= |b| || n == 0 then None
      else
        match SkipGroups(b[n..], inside)
        case None => None
        case Some(rest) => Some(n + rest)
  }

  /** Skipping as the wire format prescribes it: one instance of the contract. */
  function WireSkip(b: bytes): Option<nat> {
    match SkipGroups(b, 0)
    case None => None
    case Some(n) => if n <= MAX_INT then Some(n) else None
  }

  lemma FrontLocal(b: bytes, c: bytes, n: nat, k: nat)
    requires n <= k <= |b| && b[..k] <= c
    ensures b[..n] <= c && b[n..][..k - n] <= c[n..]
  {
    assert c[..k] == b[..k];
    assert b[..n] == b[..k][..n] == c[..n];
    assert b[n..][..k - n] == b[..k][n..] == c[..k][n..] == c[n..][..k - n];
  }

  lemma PayloadLocal(wireType: nat, b: bytes, c: bytes, k: nat)
    requires PayloadLength(wireType, b) == Some(k)
    requires k <= |b| && b[..k] <= c
    ensures PayloadLength(wireType, c) == Some(k)
  {
    if wireType == 0 || wireType == 2 {
      ReadVarintBounds(b, 0);
      var n := ReadVarint(b, 0).n;
      assert b[..k][..n] == b[..n];
      ReadVarintLocal(b, 0, c);
    }
  }

  lemma SkipOneLocal(b: bytes, depth: nat, c: bytes)
    requires SkipOne(b, depth).Some? && SkipOne(b, depth).value.0 <= |b|
    requires b[..SkipOne(b, depth).value.0] <= c
    ensures SkipOne(c, depth) == SkipOne(b, depth)
  {
    var k := SkipOne(b, depth).value.0;
    ReadVarintBounds(b, 0);
    var n := ReadVarint(b, 0).n;
    FrontLocal(b, c, n, k);
    ReadVarintLocal(b, 0, c);
    PayloadLocal(Truncate(ReadVarint(b, 0).value, Bits64) % 8, b[n..], c[n..], k - n);
  }

  lemma {:induction false} SkipGroupsLocal(b: bytes, depth: nat, c: bytes)
    requires SkipGroups(b, depth).Some?
    requires SkipGroups(b, depth).value <= |b| && b[..SkipGroups(b, depth).value] <= c
    ensures SkipGroups(c, depth) == SkipGroups(b, depth)
    decreases |b|
  {
    hide SkipOne;
    var all := SkipGroups(b, depth).value;
    var (n, inside) := SkipOne(b, depth).value;
    FrontLocal(b, c, n, all);
    SkipOneLocal(b, depth, c);
    if inside != 0 {
      SkipGroupsLocal(b[n..], inside, c[n..]);
      SkipGroupsBounds(b[n..], inside);
      assert c[n..] != [];
    }
  }

  /** A skip takes at least the tag. */
  lemma SkipGroupsBounds(b: bytes, depth: nat)
    ensures SkipGroups(b, depth).Some? ==>
              ReadVarint(b, 0).Ok? && 0 < ReadVarint(b, 0).n <= SkipGroups(b, depth).value
  {
    ReadVarintBounds(b, 0);
  }

  /** The wire format's own skipping meets the contract. */
  lemma WireSkipMeetsContract()
    ensures SkipContract(WireSkip)
  {
    forall b: bytes | WireSkip(b).Some?
      ensures ReadVarint(b, 0).Ok? && 0 < ReadVarint(b, 0).n <= WireSkip(b).value <= MAX_INT
    {
      SkipGroupsBounds(b, 0);
    }
    forall b: bytes, c: bytes | WireSkip(b).Some? && WireSkip(b).value <= |b| && b[..WireSkip(b).value] <= c
      ensures WireSkip(c) == WireSkip(b)
    {
      SkipGroupsLocal(b, 0, c);
    }
  }

  function LawfulSkip(): (f: bytes -> Option<nat>)
    ensures SkipContract(f)
  {
    WireSkipMeetsContract();
    WireSkip
  }

  type Skipper = f: bytes -> Option<nat> | SkipContract(f) witness LawfulSkip()

  /** `protohelpers.Skip`, of which only the contract is known. */
  const SKIP: Skipper

  lemma SkipLocal(b: bytes)
    requires SKIP(b).Some?
    ensures ReadVarint(b, 0).Ok? && 0 < ReadVarint(b, 0).n <= SKIP(b).value <= MAX_INT
    ensures forall c: bytes :: SKIP(b).value <= |b| && b[..SKIP(b).value] <= c ==> SKIP(c) == SKIP(b)
  {
  }

  // ---------------------------------------------------------------------------------------
  // Reading one record
  // ---------------------------------------------------------------------------------------

  datatype Kind = VarintKind | DelimKind | UnknownKind

  datatype Rec =
    | VarintRec(num: int, raw: nat)
    | DelimRec(num: int, data: bytes)
    | RawRec(data: bytes)              // an unknown field, tag included

  datatype Tag = Tag(num: i32, wireType: nat)

  function TagOf(wire: u64): Tag {
    Tag(ToI32(wire / 8), wire % 8)
  }

  function ReadTag(b: bytes): Read<Tag> {
    match ReadVarint(b, 0)
    case Bad(e) => Bad(e)
    case Ok(raw, n) =>
      var tag := TagOf(Truncate(raw, Bits64));
      if tag.wireType == 4 then Bad(EndGroup)
      else if tag.num <= 0 then Bad(IllegalTag)
      else Ok(tag, n)
  }

  /** A length and that many bytes. */
  function ReadDelim(b: bytes): Read<bytes> {
    match ReadVarint(b, 0)
    case Bad(e) => Bad(e)
    case Ok(raw, n) =>
      var len := ToInt(raw);
      if len < 0 then Bad(InvalidLength)
      else if n > |b| || n + len > |b| then Bad(PastEnd)
      else Ok(b[n..n + len], n + len)
  }

  function ReadUnknown(b: bytes): Read<bytes> {
    match SKIP(b)
    case None => Bad(SkipFailed)
    case Some(n) => if n > |b| then Bad(PastEnd) else Ok(b[..n], n)
  }

  /** The front record of b, under a message type's view of its field numbers. */
  function ReadRec(kindOf: int -> Kind, b: bytes): Read<Rec> {
    match ReadTag(b)
    case Bad(e) => Bad(e)
    case Ok(tag, n) =>
      if n > |b| then Bad(PastEnd) else
      match kindOf(tag.num)
      case VarintKind =>
        if tag.wireType != 0 then Bad(WrongWireType) else
        (match ReadVarint(b[n..], 0)
         case Bad(e) => Bad(e)
         case Ok(raw, k) => Ok(VarintRec(tag.num, raw), n + k))
      case DelimKind =>
        if tag.wireType != 2 then Bad(WrongWireType) else
        (match ReadDelim(b[n..])
         case Bad(e) => Bad(e)
         case Ok(data, k) => Ok(DelimRec(tag.num, data), n + k))
      case UnknownKind =>
        match ReadUnknown(b)
        case Bad(e) => Bad(e)
        case Ok(data, k) => Ok(RawRec(data), k)
  }

  lemma ReadTagLocal(b: bytes)
    requires ReadTag(b).Ok?
    ensures 0 < ReadTag(b).n <= |b|
    ensures forall c: bytes :: b[..ReadTag(b).n] <= c ==> ReadTag(c) == ReadTag(b)
  {
    ReadVarintBounds(b, 0);
    forall c: bytes | b[..ReadTag(b).n] <= c ensures ReadTag(c) == ReadTag(b) {
      ReadVarintLocal(b, 0, c);
    }
  }

  lemma ReadDelimLocal(b: bytes)
    requires ReadDelim(b).Ok?
    ensures 0 < ReadDelim(b).n <= |b| && |ReadDelim(b).value| <= MAX_INT
    ensures |ReadDelim(b).value| < ReadDelim(b).n
    ensures forall c: bytes :: b[..ReadDelim(b).n] <= c ==> ReadDelim(c) == ReadDelim(b)
  {
    ReadVarintBounds(b, 0);
    var n, k := ReadVarint(b, 0).n, ReadDelim(b).n;
    forall c: bytes | b[..k] <= c ensures ReadDelim(c) == ReadDelim(b) {
      assert b[..n] == b[..k][..n];
      ReadVarintLocal(b, 0, c);
      assert c[..k] == b[..k];
      assert c[n..k] == c[..k][n..] == b[n..k];
    }
  }

  /** What a record read under `kindOf` is like; a raw record reads as itself on its own. */
  ghost predicate Sound(kindOf: int -> Kind, r: Rec) {
    match r
    case VarintRec(num, raw) => kindOf(num) == VarintKind && 0 < num < TWO_32 / 2
    case DelimRec(num, data) => kindOf(num) == DelimKind && 0 < num < TWO_32 / 2 && |data| <= MAX_INT
    case RawRec(data) => data != [] && ReadRec(kindOf, data) == Ok(r, |data|)
  }

  lemma ReadVarintRecLocal(kindOf: int -> Kind, b: bytes, c: bytes)
    requires ReadRec(kindOf, b).Ok? && kindOf(ReadTag(b).value.num) == VarintKind
    ensures 0 < ReadRec(kindOf, b).n <= |b|
    ensures b[..ReadRec(kindOf, b).n] <= c ==> ReadRec(kindOf, c) == ReadRec(kindOf, b)
  {
    hide ReadVarint, ReadTag;
    ReadTagLocal(b);
    var n, k := ReadTag(b).n, ReadRec(kindOf, b).n;
    ReadVarintBounds(b[n..], 0);
    if b[..k] <= c {
      FrontLocal(b, c, n, k);
      ReadVarintLocal(b[n..], 0, c[n..]);
    }
  }

  lemma ReadDelimRecLocal(kindOf: int -> Kind, b: bytes, c: bytes)
    requires ReadRec(kindOf, b).Ok? && kindOf(ReadTag(b).value.num) == DelimKind
    ensures 0 < ReadRec(kindOf, b).n <= |b|
    ensures b[..ReadRec(kindOf, b).n] <= c ==> ReadRec(kindOf, c) == ReadRec(kindOf, b)
  {
    hide ReadVarint, ReadTag, ReadDelim;
    ReadTagLocal(b);
    var n, k := ReadTag(b).n, ReadRec(kindOf, b).n;
    ReadDelimLocal(b[n..]);
    if b[..k] <= c {
      FrontLocal(b, c, n, k);
    }
  }

  lemma ReadUnknownRecLocal(kindOf: int -> Kind, b: bytes, c: bytes)
    requires ReadRec(kindOf, b).Ok? && kindOf(ReadTag(b).value.num) == UnknownKind
    ensures 0 < ReadRec(kindOf, b).n <= |b|
    ensures b[..ReadRec(kindOf, b).n] <= c ==> ReadRec(kindOf, c) == ReadRec(kindOf, b)
  {
    hide ReadVarint;
    ReadTagLocal(b);
    SkipLocal(b);
    var n, k := ReadTag(b).n, ReadRec(kindOf, b).n;
    assert n == ReadVarint(b, 0).n && k == SKIP(b).value;
    if b[..k] <= c {
      FrontLocal(b, c, n, k);
      assert c[..k] == b[..k];
    }
  }

  /** Locality of one record: it lies inside the input, and reads the same in front of any
      other continuation. */
  lemma ReadRecLocal(kindOf: int -> Kind, b: bytes, c: bytes)
    requires ReadRec(kindOf, b).Ok?
    ensures 0 < ReadRec(kindOf, b).n <= |b|
    ensures b[..ReadRec(kindOf, b).n] <= c ==> ReadRec(kindOf, c) == ReadRec(kindOf, b)
  {
    hide ReadVarint, ReadTag, ReadDelim;
    match kindOf(ReadTag(b).value.num)
    case VarintKind => ReadVarintRecLocal(kindOf, b, c);
    case DelimKind => ReadDelimRecLocal(kindOf, b, c);
    case UnknownKind => ReadUnknownRecLocal(kindOf, b, c);
  }

  lemma ReadRecSound(kindOf: int -> Kind, b: bytes)
    requires ReadRec(kindOf, b).Ok?
    ensures Sound(kindOf, ReadRec(kindOf, b).value)
  {
    hide ReadVarint;
    ReadTagLocal(b);
    var n := ReadTag(b).n;
    match kindOf(ReadTag(b).value.num)
    case VarintKind =>
    case DelimKind => ReadDelimLocal(b[n..]);
    case UnknownKind => ReadRecLocal(kindOf, b, b[..ReadRec(kindOf, b).n]);
  }
}
