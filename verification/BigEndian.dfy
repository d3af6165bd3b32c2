/** Big-endian integers of a fixed number of bytes, as `binary.BigEndian` reads and puts them. */
module BigEndian {
  import opened Machine

  function Pow256(n: nat): (p: nat)
    ensures p > 0
  {
    if n == 0 then 1 else 256 * Pow256(n - 1)
  }

  /** The n low bytes of x, most significant first. */
  function EncBE(x: nat, n: nat): (b: bytes)
    ensures |b| == n
  {
    if n == 0 then [] else EncBE(x / 256, n - 1) + [x % 256]
  }

  function ReadBE(b: bytes): nat {
    if b == [] then 0 else 256 * ReadBE(b[..|b| - 1]) + b[|b| - 1]
  }

  lemma {:induction false} ReadBEBound(b: bytes)
    ensures ReadBE(b) < Pow256(|b|)
  {
    if b != [] { ReadBEBound(b[..|b| - 1]); }
  }

  /** Reading inverts putting, up to truncation to n bytes. */
  lemma {:induction false} ReadEncBE(x: nat, n: nat)
    requires x < Pow256(n)
    ensures ReadBE(EncBE(x, n)) == x
    decreases n
  {
    if n > 0 {
      ReadEncBE(x / 256, n - 1);
      var b := EncBE(x, n);
      assert b[..n - 1] == EncBE(x / 256, n - 1);
    }
  }

  /** Every byte string is the encoding of what it reads as. */
  lemma {:induction false} EncReadBE(b: bytes)
    ensures EncBE(ReadBE(b), |b|) == b
  {
    if b != [] {
      EncReadBE(b[..|b| - 1]);
      assert b == b[..|b| - 1] + [b[|b| - 1]];
    }
  }

  /** A field of n bytes holds x exactly when its bytes are those of x. */
  lemma BEField(x: nat, b: bytes)
    requires x < Pow256(|b|)
    ensures b == EncBE(x, |b|) <==> ReadBE(b) == x
  {
    ReadEncBE(x, |b|);
    EncReadBE(b);
  }

  lemma Widths()
    ensures Pow256(2) == TWO_16 && Pow256(4) == TWO_32 && Pow256(8) == TWO_64
  {
  }

  /** The bytes of a field, the highest first. */
  lemma TwoBytes(b0: byte, b1: byte)
    ensures ReadBE([b0, b1]) == 256 * b0 + b1 && EncBE(256 * b0 + b1, 2) == [b0, b1]
  {
    var b := [b0, b1];
    assert b[..1] == [b0] && [b0][..0] == [];
    assert ReadBE([b0]) == b0;
    EncReadBE(b);
  }

  lemma FourBytes(b0: byte, b1: byte, b2: byte, b3: byte)
    ensures ReadBE([b0, b1, b2, b3]) == 0x100_0000 * b0 + 0x1_0000 * b1 + 0x100 * b2 + b3
    ensures EncBE(0x100_0000 * b0 + 0x1_0000 * b1 + 0x100 * b2 + b3, 4) == [b0, b1, b2, b3]
  {
    hide EncBE;
    TwoBytes(b0, b1);
    assert [b0, b1] + [b2] == [b0, b1, b2] && [b0, b1, b2] + [b3] == [b0, b1, b2, b3];
    Longer([b0, b1], b2);
    Longer([b0, b1, b2], b3);
    EncReadBE([b0, b1, b2, b3]);
  }

  lemma Longer(b: bytes, last: byte)
    ensures ReadBE(b + [last]) == 256 * ReadBE(b) + last
  {
    assert (b + [last])[..|b|] == b;
  }

  lemma EightBytes(b: bytes)
    requires |b| == 8
    ensures ReadBE(b) == 0x1_0000_0000 * ReadBE(b[..4]) + ReadBE(b[4..])
  {
    FourBytes(b[4], b[5], b[6], b[7]);
    assert b[4..] == [b[4], b[5], b[6], b[7]];
    Longer(b[..4], b[4]);
    Longer(b[..5], b[5]);
    Longer(b[..6], b[6]);
    Longer(b[..7], b[7]);
    assert b[..5] == b[..4] + [b[4]] && b[..6] == b[..5] + [b[5]] && b[..7] == b[..6] + [b[6]] && b == b[..7] + [b[7]];
  }
}
