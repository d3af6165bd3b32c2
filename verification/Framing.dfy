/**
 The stream `serializeL7ProtocolInfo` hands to the host: one frame per info, each a two-byte
 big-endian length, the magic "PB" and the encoded AppInfo, within one page.
 */
module Framing {
  import opened Machine
  import opened BigEndian
  import opened Codec
  import opened Messages
  import opened RoundTrip
  import opened Sizes

  const BUF_SIZE := 65536
  const MAGIC: bytes := [0x50, 0x42]

  function Frame(m: InfoMsg): bytes {
    EncBE(|EncInfo(m)| + 2, 2) + (MAGIC + EncInfo(m))
  }

  function Frames(ms: seq<InfoMsg>): bytes {
    if ms == [] then [] else Frame(ms[0]) + Frames(ms[1..])
  }

  /** Room the messages need: four bytes each besides their encoding. */
  function Room(ms: seq<InfoMsg>): nat {
    if ms == [] then 0 else 4 + |EncInfo(ms[0])| + Room(ms[1..])
  }

  /** How serializing ends: with a stream, with nil, or with a panic. */
  datatype Serialization = Stream(data: bytes) | Refused | Crashed

  /** The message at which the room runs out. */
  predicate IsFirstMisfit(ms: seq<InfoMsg>, k: nat) {
    k < |ms| && Room(ms[..k]) <= BUF_SIZE < Room(ms[..k + 1])
  }

  ghost function FirstMisfit(ms: seq<InfoMsg>): (k: nat)
    requires Room(ms) > BUF_SIZE
    ensures IsFirstMisfit(ms, k)
  {
    MisfitExists(ms);
    var k: nat :| IsFirstMisfit(ms, k); k
  }

  /** The length check, in `int` arithmetic, behind a head that ends at `off`. */
  predicate PassesCheck(off: int, m: InfoMsg) {
    Plus(off, InfoSizeVT(m)) <= BUF_SIZE
  }

  /** All the frames, when they fit one page. Otherwise the message that does not fit is caught
      by the length check, or by a panic when the size in the check has wrapped around. */
  ghost function Serialized(ms: seq<InfoMsg>): Serialization {
    if Room(ms) <= BUF_SIZE then Stream(Frames(ms))
    else
      var k := FirstMisfit(ms);
      if PassesCheck(Room(ms[..k]) + 4, ms[k]) then Crashed else Refused
  }

  /** What a reader of the stream does: take a length, then that many bytes. */
  function SplitFrames(b: bytes): Option<seq<bytes>>
    decreases |b|
  {
    if b == [] then Some([])
    else if |b| < 2 || 2 + ReadBE(b[..2]) > |b| then None
    else
      var n := 2 + ReadBE(b[..2]);
      match SplitFrames(b[n..])
      case None => None
      case Some(rest) => Some([b[2..n]] + rest)
  }

  lemma {:induction false} FramesSize(ms: seq<InfoMsg>)
    ensures |Frames(ms)| == Room(ms)
  {
    hide EncInfo, EncBE;
    if ms != [] { FramesSize(ms[1..]); }
  }

  lemma {:induction false} FramesConcat(a: seq<InfoMsg>, b: seq<InfoMsg>)
    ensures Frames(a + b) == Frames(a) + Frames(b) && Room(a + b) == Room(a) + Room(b)
    decreases |a|
  {
    hide Frame, EncInfo;
    if a == [] {
      assert a + b == b;
    } else {
      FramesConcat(a[1..], b);
      assert (a + b)[1..] == a[1..] + b;
      assert Frames(a + b) == Frame(a[0]) + (Frames(a[1..]) + Frames(b));
    }
  }

  lemma FramesOne(ms: seq<InfoMsg>, k: nat)
    requires k < |ms|
    ensures Frames(ms[..k + 1]) == Frames(ms[..k]) + Frame(ms[k])
    ensures Room(ms[..k + 1]) == Room(ms[..k]) + 4 + |EncInfo(ms[k])| <= Room(ms)
  {
    hide Frame, EncInfo;
    assert ms[..k + 1] == ms[..k] + [ms[k]];
    FramesConcat(ms[..k], [ms[k]]);
    assert [ms[k]][1..] == [];
    assert Frames([ms[k]]) == Frame(ms[k]) + [];
    assert ms == ms[..k + 1] + ms[k + 1..];
    FramesConcat(ms[..k + 1], ms[k + 1..]);
  }

  lemma SplitOne(m: InfoMsg, rest: bytes)
    requires |EncInfo(m)| + 2 < TWO_16
    ensures var b := Frame(m) + rest;
            && |b| >= 2 && 2 + ReadBE(b[..2]) == |Frame(m)|
            && b[2..|Frame(m)|] == MAGIC + EncInfo(m) && b[|Frame(m)|..] == rest
  {
    hide EncInfo, EncBE, ReadBE;
    var b, n := Frame(m) + rest, |EncInfo(m)| + 2;
    Widths();
    ReadEncBE(n, 2);
    assert b[..2] == EncBE(n, 2);
    assert b[2..2 + n] == MAGIC + EncInfo(m);
  }

  function Bodies(ms: seq<InfoMsg>): seq<bytes> {
    if ms == [] then [] else [MAGIC + EncInfo(ms[0])] + Bodies(ms[1..])
  }

  lemma {:induction false} BodiesAt(ms: seq<InfoMsg>)
    ensures |Bodies(ms)| == |ms|
    ensures forall k :: 0 <= k < |ms| ==> Bodies(ms)[k] == MAGIC + EncInfo(ms[k])
  {
    hide EncInfo;
    if ms != [] { BodiesAt(ms[1..]); }
  }

  lemma {:induction false} SplitSerialized(ms: seq<InfoMsg>)
    requires Room(ms) <= BUF_SIZE
    ensures SplitFrames(Frames(ms)) == Some(Bodies(ms))
    decreases |ms|
  {
    hide EncInfo, Frame, ReadBE;
    if ms != [] {
      SplitOne(ms[0], Frames(ms[1..]));
      FrameSize(ms[0]);
      SplitSerialized(ms[1..]);
    }
  }

  /** Framed stream round trip: a serialized stream splits exactly into one body per message,
      in order, each starting with the magic, and each decoding to the message. */
  lemma {:induction false} StreamRoundTrip(ms: seq<InfoMsg>)
    requires Room(ms) <= BUF_SIZE && forall m :: m in ms ==> InfoWf(m)
    ensures var bodies := SplitFrames(Frames(ms));
            && Serialized(ms) == Stream(Frames(ms))
            && bodies.Some? && |bodies.value| == |ms|
            && forall k :: 0 <= k < |ms| ==>
                 && |bodies.value[k]| >= 2 && bodies.value[k][..2] == MAGIC
                 && Decode(INFO, NO_INFO, bodies.value[k][2..]) == Outcome(ms[k], None)
  {
    hide EncInfo, Frames, Decode, InfoWf, Bodies, SplitFrames;
    SplitSerialized(ms);
    BodiesAt(ms);
    forall k | 0 <= k < |ms| ensures Decode(INFO, NO_INFO, Bodies(ms)[k][2..]) == Outcome(ms[k], None) {
      FramesOne(ms, k);
      InfoRoundTrip(ms[k]);
      assert Bodies(ms)[k][2..] == EncInfo(ms[k]);
    }
  }

  lemma StreamMeansRoom(ms: seq<InfoMsg>)
    ensures Serialized(ms).Stream? ==> Room(ms) <= BUF_SIZE
  {
    hide Room, Frames, PassesCheck;
  }

  /** A frame byte by byte: its length, the highest byte first, "PB" and the message. */
  lemma FrameBytes(m: InfoMsg)
    requires |EncInfo(m)| + 2 < 0x1_0000
    ensures var n := |EncInfo(m)| + 2; Frame(m) == [n / 256, n % 256, 0x50, 0x42] + EncInfo(m)
  {
    hide EncInfo, EncBE;
    var n := |EncInfo(m)| + 2;
    TwoBytes(n / 256, n % 256);
  }

  /** And split off byte by byte. */
  lemma SplitBytes(body: bytes, rest: bytes)
    requires |body| < 0x1_0000
    ensures var b := [|body| / 256, |body| % 256] + body + rest;
            SplitFrames(b) == if SplitFrames(rest).None? then None else Some([body] + SplitFrames(rest).value)
  {
    hide ReadBE;
    var n := |body|;
    var b := [n / 256, n % 256] + body + rest;
    TwoBytes(n / 256, n % 256);
    assert b[..2] == [n / 256, n % 256] && b[2..2 + n] == body && b[2 + n..] == rest;
  }

  lemma FrameSize(m: InfoMsg)
    ensures |Frame(m)| == 4 + |EncInfo(m)|
  {
    hide EncInfo, EncBE;
  }

  // ---------------------------------------------------------------------------------------
  // Capacity
  // ---------------------------------------------------------------------------------------

  lemma {:induction false} MisfitExists(ms: seq<InfoMsg>)
    requires Room(ms) > BUF_SIZE
    ensures exists k: nat :: IsFirstMisfit(ms, k)
    decreases |ms|
  {
    hide EncInfo;
    var n := |ms| - 1;
    FramesOne(ms, n);
    assert ms[..n + 1] == ms;
    if Room(ms[..n]) <= BUF_SIZE {
      assert IsFirstMisfit(ms, n);
    } else {
      MisfitExists(ms[..n]);
      var k: nat :| IsFirstMisfit(ms[..n], k);
      assert ms[..n][..k] == ms[..k] && ms[..n][..k + 1] == ms[..k + 1];
      assert IsFirstMisfit(ms, k);
    }
  }

  /** More messages need more room. */
  lemma RoomGrows(ms: seq<InfoMsg>, j: nat, k: nat)
    requires j <= k <= |ms|
    ensures Room(ms[..j]) <= Room(ms[..k]) <= Room(ms)
  {
    hide Frame, EncInfo;
    assert ms[..k] == ms[..j] + ms[j..k] && ms == ms[..k] + ms[k..];
    FramesConcat(ms[..j], ms[j..k]);
    FramesConcat(ms[..k], ms[k..]);
  }

  lemma MisfitUnique(ms: seq<InfoMsg>, j: nat, k: nat)
    requires IsFirstMisfit(ms, j) && IsFirstMisfit(ms, k)
    ensures j == k
  {
    hide Room;
    if j < k { RoomGrows(ms, j + 1, k); }
    if k < j { RoomGrows(ms, k + 1, j); }
  }

  /** Exact capacity: a stream exactly when all frames fit; a panic exactly when the check lets
      through the first message that does not; and nil otherwise. */
  lemma Capacity(ms: seq<InfoMsg>)
    ensures Serialized(ms) == Stream(Frames(ms)) <==> Room(ms) <= BUF_SIZE
    ensures Serialized(ms).Stream? <==> |Frames(ms)| <= 65536
    ensures Serialized(ms) == Crashed <==>
            exists k: nat :: IsFirstMisfit(ms, k) && PassesCheck(Room(ms[..k]) + 4, ms[k])
    ensures Serialized(ms) == Refused <==>
            exists k: nat :: IsFirstMisfit(ms, k) && !PassesCheck(Room(ms[..k]) + 4, ms[k])
  {
    hide Room, PassesCheck, Frames;
    FramesSize(ms);
    if Room(ms) > BUF_SIZE {
      forall k: nat | IsFirstMisfit(ms, k) ensures k == FirstMisfit(ms) {
        MisfitUnique(ms, k, FirstMisfit(ms));
      }
      assert IsFirstMisfit(ms, FirstMisfit(ms));
    } else {
      forall k: nat | k < |ms| ensures !IsFirstMisfit(ms, k) { RoomGrows(ms, k + 1, k + 1); }
    }
  }

  /** Messages that would fit an `int` behind the ones before them are never let through. */
  lemma CheckIsExact(off: nat, m: InfoMsg)
    requires off + |EncInfo(m)| <= MAX_INT
    ensures PassesCheck(off, m) <==> off + |EncInfo(m)| <= BUF_SIZE
  {
    hide EncInfo, InfoSizeVT;
    InfoSizeVTExact(m);
  }

  /** So with messages of such sizes there is a stream or nil, depending on the room alone. */
  lemma CapacityOfInts(ms: seq<InfoMsg>)
    requires forall k :: 0 <= k < |ms| && Room(ms[..k]) <= BUF_SIZE ==> Room(ms[..k]) + 4 + |EncInfo(ms[k])| <= MAX_INT
    ensures Serialized(ms) == if Room(ms) <= BUF_SIZE then Stream(Frames(ms)) else Refused
  {
    hide Frames, PassesCheck, EncInfo;
    if Room(ms) > BUF_SIZE {
      var k := FirstMisfit(ms);
      FramesOne(ms, k);
      CheckIsExact(Room(ms[..k]) + 4, ms[k]);
    }
  }
}
