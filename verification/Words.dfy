/**
 Machine words of the VM: 64-bit registers as naturals below 2^64, the i32
 immediates carried by decoded instructions, and the wrapping, signed and
 division operations the `u64` register type offers (src/instructions/register.rs).
 */
module Words {

  const TWO31: int := 0x8000_0000
  const TWO32: int := 0x1_0000_0000
  const TWO63: int := 0x8000_0000_0000_0000
  const TWO64: int := 0x1_0000_0000_0000_0000
  const U64_MAX: U64 := TWO64 - 1

  type Byte = x: int | 0 <= x < 256
  type U32 = x: int | 0 <= x < TWO32
  type U64 = x: int | 0 <= x < TWO64
  type I32 = x: int | -TWO31 <= x < TWO31

  datatype Option<+T> = None | Some(value: T)

  function Wrap(x: int): U64 { x % TWO64 }

  function Add(a: U64, b: U64): U64 { if a + b < TWO64 then a + b else a + b - TWO64 }

  function Sub(a: U64, b: U64): U64 { if a >= b then a - b else a - b + TWO64 }

  function Mul(a: U64, b: U64): U64 { Wrap(a * b) }

  /** `lt`: the comparison as a register value. */
  function Lt(a: U64, b: U64): U64 { if a < b then 1 else 0 }

  /** The two's complement reading of a register. */
  function Signed(a: U64): int { if a < TWO63 then a else a - TWO64 }

  function FromI32(i: I32): U64 { if i < 0 then i + TWO64 else i }

  /** The i32 sum of two i32 values, `wrapping_add`. */
  function WrapI32(x: int): I32
    requires -TWO32 <= x < TWO32
  {
    if x < -TWO31 then x + TWO32 else if x >= TWO31 then x - TWO32 else x
  }

  predicate FitsI32(x: int) { -TWO31 <= x < TWO31 }

  function ZeroExtend32(a: U64): U64 { a % TWO32 }

  function SignExtend32(a: U64): U64
  {
    var low := a % TWO32;
    if low < TWO31 then low else low + (TWO64 - TWO32)
  }

  /** `a & !1`, the alignment every indirect jump applies. */
  function ClearBit0(a: U64): U64 { a - a % 2 }

  // ---------------------------------------------------------------- bitwise or

  function Pow2(n: nat): nat
    ensures Pow2(n) > 0
  {
    if n == 0 then 1 else 2 * Pow2(n - 1)
  }

  lemma {:induction false} Pow2Byte(n: nat)
    ensures Pow2(n + 8) == 256 * Pow2(n)
  {
    assert Pow2(n + 8) == 16 * Pow2(n + 4) && Pow2(n + 4) == 16 * Pow2(n) by {
      assert Pow2(n + 2) == 4 * Pow2(n) && Pow2(n + 4) == 4 * Pow2(n + 2);
      assert Pow2(n + 6) == 4 * Pow2(n + 4) && Pow2(n + 8) == 4 * Pow2(n + 6);
    }
  }

  lemma {:induction false} Pow2Of64()
    ensures Pow2(64) == TWO64
  {
    Pow2Byte(0);
    Pow2Byte(8);
    Pow2Byte(16);
    Pow2Byte(24);
    Pow2Byte(32);
    Pow2Byte(40);
    Pow2Byte(48);
    Pow2Byte(56);
  }

  /** Bitwise or of the low `n` bits. */
  function OrBits(a: nat, b: nat, n: nat): (r: nat)
    ensures r < Pow2(n)
  {
    if n == 0 then 0
    else (if a % 2 == 1 || b % 2 == 1 then 1 else 0) + 2 * OrBits(a / 2, b / 2, n - 1)
  }

  function Or(a: U64, b: U64): U64
  {
    Pow2Of64();
    OrBits(a, b, 64)
  }

  predicate Bit(a: nat, i: nat) { if i == 0 then a % 2 == 1 else Bit(a / 2, i - 1) }

  lemma {:induction false} OrBitsBit(a: nat, b: nat, n: nat, i: nat)
    requires i < n
    ensures Bit(OrBits(a, b, n), i) <==> Bit(a, i) || Bit(b, i)
    decreases n
  {
    if i > 0 {
      assert OrBits(a, b, n) / 2 == OrBits(a / 2, b / 2, n - 1);
      OrBitsBit(a / 2, b / 2, n - 1, i - 1);
    }
  }

  lemma {:induction false} OrBitsZero(n: nat)
    ensures OrBits(0, 0, n) == 0
  {
    if n > 0 { OrBitsZero(n - 1); }
  }

  /** On carry flags, bitwise or is logical or. */
  lemma {:induction false} OrOfFlags(a: U64, b: U64)
    requires a <= 1 && b <= 1
    ensures Or(a, b) == if a == 1 || b == 1 then 1 else 0
  {
    OrBitsZero(63);
    assert a / 2 == 0 && b / 2 == 0;
  }

  // ---------------------------------------------------------------- high products

  function MulHighSigned(a: U64, b: U64): U64 { Wrap(Signed(a) * Signed(b) / TWO64) }

  function MulHighUnsigned(a: U64, b: U64): U64 { Wrap(a * b / TWO64) }

  function MulHighSignedUnsigned(a: U64, b: U64): U64 { Wrap(Signed(a) * b / TWO64) }

  // ---------------------------------------------------------------- division

  function Abs(x: int): nat { if x < 0 then -x else x }

  /** Quotient rounded towards zero, as the host's integer division rounds. */
  function TruncQuot(a: int, b: int): int
    requires b != 0
  {
    if (a < 0) == (b < 0) then Abs(a) / Abs(b) else -(Abs(a) / Abs(b))
  }

  function TruncRem(a: int, b: int): int
    requires b != 0
  {
    a - b * TruncQuot(a, b)
  }

  function DivUnsigned(a: U64, b: U64): U64
  {
    if b == 0 then U64_MAX else Wrap(a / b)
  }

  function RemUnsigned(a: U64, b: U64): U64
  {
    if b == 0 then a else Wrap(a % b)
  }

  /** The host division overflows only on the most negative dividend by -1. */
  predicate DivOverflows(a: U64, b: U64) { a == TWO63 && b == U64_MAX }

  function DivSigned(a: U64, b: U64): U64
  {
    if b == 0 then U64_MAX
    else if DivOverflows(a, b) then TWO63
    else Wrap(TruncQuot(Signed(a), Signed(b)))
  }

  function RemSigned(a: U64, b: U64): U64
  {
    if b == 0 then a
    else if DivOverflows(a, b) then 0
    else Wrap(TruncRem(Signed(a), Signed(b)))
  }

  // ---------------------------------------------------------------- immediates

  /** Sums of sign-extended immediates are the sign-extended sum exactly when it fits an i32. */
  lemma {:induction false} WrapOfImmediateSum(a: I32, b: I32)
    ensures Add(FromI32(a), FromI32(b)) == FromI32(WrapI32(a + b)) <==> FitsI32(a + b)
  {
  }

  /** Truncated to 32 bits and sign extended, they always are. */
  lemma {:induction false} SignExtendOfImmediateSum(a: I32, b: I32)
    ensures SignExtend32(Add(FromI32(a), FromI32(b))) == FromI32(WrapI32(a + b))
  {
  }
}
