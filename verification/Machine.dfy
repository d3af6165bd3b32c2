/**
 Byte strings, the fixed-width integers of the program, and the two facts about its
 environment that it does not fix itself: the width of the platform's `int`, and the
 record skipper of the vtprotobuf runtime.
 */
module Machine {
  type byte = x: int | 0 <= x < 256
  type bytes = seq<byte>

  datatype Option<+T> = None | Some(value: T)

  const TWO_16 := 0x1_0000
  const TWO_32 := 0x1_0000_0000
  const TWO_64 := 0x1_0000_0000_0000_0000

  type u8 = x: int | 0 <= x < 256
  type u16 = x: int | 0 <= x < 0x1_0000
  type u32 = x: int | 0 <= x < 0x1_0000_0000
  type u64 = x: int | 0 <= x < 0x1_0000_0000_0000_0000
  type i32 = x: int | -0x8000_0000 <= x < 0x8000_0000

  /** The platform `int` has 32 bits under TinyGo's wasm target and 64 bits elsewhere. The
      constant is deliberately given no value: every result holds for both widths. */
  datatype Width = Bits32 | Bits64
  const INT_WIDTH: Width
  const INT_MOD: nat := if INT_WIDTH.Bits32? then TWO_32 else TWO_64
  const MAX_INT: nat := INT_MOD / 2 - 1

  /** Conversion to an unsigned type of the given width. */
  function Truncate(x: nat, width: Width): (r: nat)
    ensures r < TWO_64 && (width.Bits32? ==> r < TWO_32)
    ensures x < TWO_32 || (x < TWO_64 && width.Bits64?) ==> r == x
  {
    if width.Bits32? then x % TWO_32 else x % TWO_64
  }

  lemma TruncateSum(x: nat, y: nat, width: Width)
    ensures Truncate(Truncate(x, width) + y, width) == Truncate(x + y, width)
  {
    if width.Bits32? {
      Sum32(x, y);
    } else {
      Sum64(x, y);
    }
  }

  lemma Sum32(x: nat, y: nat)
    ensures (x % TWO_32 + y) % TWO_32 == (x + y) % TWO_32
  {
    assert x + y == x / TWO_32 * TWO_32 + (x % TWO_32 + y);
  }

  lemma Sum64(x: nat, y: nat)
    ensures (x % TWO_64 + y) % TWO_64 == (x + y) % TWO_64
  {
    assert x + y == x / TWO_64 * TWO_64 + (x % TWO_64 + y);
  }

  /** Two's complement reading of the low bits of x, as an `int32` and as a platform `int`. */
  function ToI32(x: int): (r: i32)
    ensures -(TWO_32 / 2) <= x < TWO_32 / 2 ==> r == x
  {
    var r := x % TWO_32;
    if r < TWO_32 / 2 then r else r - TWO_32
  }

  function ToInt(x: int): (r: int)
    ensures -(INT_MOD / 2) <= r <= MAX_INT
    ensures -(INT_MOD / 2) <= x <= MAX_INT ==> r == x
  {
    var r := x % INT_MOD;
    if r < INT_MOD / 2 then r else r - INT_MOD
  }

  /** Beyond the largest `int` the negative ones begin. */
  lemma ToIntWraps(x: int)
    requires MAX_INT < x <= INT_MOD
    ensures ToInt(x) == x - INT_MOD
  {
    if INT_WIDTH.Bits32? && x < TWO_32 { assert x % TWO_32 == x; }
    if INT_WIDTH.Bits64? && x < TWO_64 { assert x % TWO_64 == x; }
  }

  /** Addition of platform `int`s. */
  function Plus(x: int, y: int): int {
    ToInt(x + y)
  }

  lemma Low32(x: int, k: int)
    ensures (x - k * TWO_32) % TWO_32 == x % TWO_32
  {
    assert x - k * TWO_32 == (x / TWO_32 - k) * TWO_32 + x % TWO_32;
  }

  lemma Low64(x: int, k: int)
    ensures (x - k * TWO_64) % TWO_64 == x % TWO_64
  {
    assert x - k * TWO_64 == (x / TWO_64 - k) * TWO_64 + x % TWO_64;
  }

  /** Adding up in a platform `int` gives the low bits of the unbounded sum. */
  lemma PlusIsSum()
    ensures forall t: int, d: int {:trigger Plus(ToInt(t), d)} :: Plus(ToInt(t), d) == ToInt(t + d)
    ensures ToInt(0) == 0
  {
    forall t: int, d: int ensures Plus(ToInt(t), d) == ToInt(t + d) {
      PlusStep(t, d);
    }
  }

  lemma PlusStep(t: int, d: int)
    ensures Plus(ToInt(t), d) == ToInt(t + d)
  {
    if INT_WIDTH.Bits32? {
      var k := t / TWO_32;
      Low32(t + d, k);
      Low32(t + d, k + 1);
    } else {
      var k := t / TWO_64;
      Low64(t + d, k);
      Low64(t + d, k + 1);
    }
  }

  /** A sum added to another. */
  lemma PlusBack(t: int, d: int)
    ensures Plus(ToInt(t), Plus(0, d)) == ToInt(t + d)
  {
    hide ToInt;
    PlusStep(d, t);
    PlusStep(t, ToInt(d));
  }

  /** `uint64(x)` of a platform `int`: sign extension. */
  function U64OfInt(x: int): (r: u64)
    requires -(INT_MOD / 2) <= x <= MAX_INT
    ensures x >= 0 ==> r == x
    ensures x < 0 ==> r >= TWO_64 / 2
  {
    if x >= 0 then x else x + TWO_64
  }

  /** `uint64(v)` of a signed 32-bit value: sign extension. */
  function SignExtend(v: i32): u64 {
    if v >= 0 then v else v + TWO_64
  }

  /** Every `int32` survives sign extension to 64 bits followed by a truncating read. */
  lemma SignExtendRoundTrip(v: i32)
    ensures ToI32(SignExtend(v)) == v
  {
  }

  /** `int(x)` of a `uint64` only depends on the low bits of x. */
  lemma ToIntOfU64(x: nat)
    ensures ToInt(Truncate(x, Bits64)) == ToInt(x) == ToInt(Truncate(x, INT_WIDTH))
    ensures ToI32(Truncate(x, Bits32)) == ToI32(x)
  {
    assert x % TWO_64 % TWO_32 == x % TWO_32;
  }
}
