/**
 Division (src/instructions/register.rs, and the 32-bit forms in src/instructions/execute.rs), against
 section 7.2 of the RISC-V Unprivileged ISA 20191213.
 */
module Division {
  import opened Words
  import opened Arithmetic

  // ---------------------------------------------------------------- rounding towards zero

  /** The quotient rounded towards zero leaves a remainder with the sign of the dividend. */
  lemma {:induction false} TruncatedDivision(a: int, b: int)
    requires b != 0
    ensures a == b * TruncQuot(a, b) + TruncRem(a, b) && Abs(TruncRem(a, b)) < Abs(b)
    ensures (a >= 0 ==> TruncRem(a, b) >= 0) && (a <= 0 ==> TruncRem(a, b) <= 0)
    ensures Abs(TruncQuot(a, b)) <= Abs(a)
  {
    var q, r := Abs(a) / Abs(b), Abs(a) % Abs(b);
    DivMod(Abs(a), Abs(b));
    QuotientBound(Abs(a), Abs(b));
    SignedProduct(a, b, q);
    hide Abs;
    AbsIs(a);
    AbsIs(b);
  }

  lemma {:induction false} AbsIs(x: int)
    ensures Abs(x) == if x < 0 then -x else x
  {
  }

  lemma {:induction false} DivMod(a: nat, b: nat)
    requires b > 0
    ensures a == b * (a / b) + a % b && a % b < b
  {
  }

  lemma {:induction false} SignedProduct(a: int, b: int, q: int)
    requires b != 0
    ensures b * (if (a < 0) == (b < 0) then q else -q) == if a < 0 then -(Abs(b) * q) else Abs(b) * q
  {
  }

  lemma {:induction false} MulAtLeast(b: nat, q: nat, least: nat)
    requires b >= least
    ensures b * q >= least * q
  {
  }

  lemma {:induction false} QuotientBound(a: nat, b: nat)
    requires b > 0
    ensures a / b <= a
  {
    DivMod(a, b);
    MulAtLeast(b, a / b, 1);
  }

  // ---------------------------------------------------------------- 64-bit division

  /** Dividend = divisor * quotient + remainder, modulo 2^64, for all operands. */
  lemma {:induction false} DivisionLaw(a: U64, b: U64)
    ensures Wrap(b * DivUnsigned(a, b) + RemUnsigned(a, b)) == a
    ensures Wrap(b * DivSigned(a, b) + RemSigned(a, b)) == a
  {
    UnsignedLaw(a, b);
    SignedLaw(a, b);
  }

  lemma {:induction false} UnsignedLaw(a: U64, b: U64)
    ensures Wrap(b * DivUnsigned(a, b) + RemUnsigned(a, b)) == a
  {
    if b != 0 {
      assert a == b * (a / b) + a % b;
      QuotientBound(a, b);
      WrapUnique(a / b, 0, a / b);
      WrapUnique(a % b, 0, a % b);
    }
    WrapUnique(a, 0, a);
  }

  lemma {:induction false} SignedLaw(a: U64, b: U64)
    ensures Wrap(b * DivSigned(a, b) + RemSigned(a, b)) == a
  {
    hide TruncQuot, TruncRem;
    if b == 0 {
      WrapUnique(a, 0, a);
    } else if DivOverflows(a, b) {
      WrapUnique(b * TWO63, TWO63 - 1, a);
    } else {
      var q, r := TruncQuot(Signed(a), Signed(b)), TruncRem(Signed(a), Signed(b));
      TruncatedDivision(Signed(a), Signed(b));
      ExcessIs(q);
      ExcessIs(r);
      SignExcessIs(a);
      SignExcessIs(b);
      LawExpansion(Signed(b), SignExcess(b), Wrap(q), Excess(q), Wrap(r), Excess(r), TWO64);
      WrapUnique(b * Wrap(q) + Wrap(r), SignExcess(b) * Wrap(q) - Signed(b) * Excess(q) - Excess(r) - SignExcess(a), a);
    }
  }

  lemma {:induction false} LawExpansion(b: int, kb: int, q: int, kq: int, r: int, kr: int, m: int)
    ensures (b + kb * m) * q + r == (b * (q + kq * m) + (r + kr * m)) + (kb * q - b * kq - kr) * m
  {
  }

  /** Unsigned remainders are below the divisor; signed ones are smaller and have the dividend's sign. */
  lemma {:induction false} RemainderRange(a: U64, b: U64)
    requires b != 0
    ensures RemUnsigned(a, b) < b
    ensures Abs(Signed(RemSigned(a, b))) < Abs(Signed(b))
    ensures (Signed(a) >= 0 ==> Signed(RemSigned(a, b)) >= 0) && (Signed(a) <= 0 ==> Signed(RemSigned(a, b)) <= 0)
  {
    WrapUnique(a % b, 0, a % b);
    if !DivOverflows(a, b) {
      TruncatedDivision(Signed(a), Signed(b));
      SignedOfWrap(TruncRem(Signed(a), Signed(b)));
    }
  }

  lemma {:induction false} SignedOfWrap(x: int)
    requires -TWO63 <= x < TWO63
    ensures Signed(Wrap(x)) == x
  {
  }

  // ---------------------------------------------------------------- 32-bit division by 64-bit operations

  function DivW(a: U64, b: U64): U64 { SignExtend32(DivSigned(SignExtend32(a), SignExtend32(b))) }

  function RemW(a: U64, b: U64): U64 { SignExtend32(RemSigned(SignExtend32(a), SignExtend32(b))) }

  function DivUW(a: U64, b: U64): U64 { SignExtend32(DivUnsigned(ZeroExtend32(a), ZeroExtend32(b))) }

  function RemUW(a: U64, b: U64): U64 { SignExtend32(RemUnsigned(ZeroExtend32(a), ZeroExtend32(b))) }

  // The 32-bit instructions as the standard's table has them.

  function Signed32(x: U32): int { if x < TWO31 then x else x - TWO32 }

  function Div32(x: U32, y: U32): U32 {
    if y == 0 then TWO32 - 1
    else if x == TWO31 && y == TWO32 - 1 then TWO31
    else TruncQuot(Signed32(x), Signed32(y)) % TWO32
  }

  function Rem32(x: U32, y: U32): U32 {
    if y == 0 then x
    else if x == TWO31 && y == TWO32 - 1 then 0
    else TruncRem(Signed32(x), Signed32(y)) % TWO32
  }

  function DivU32(x: U32, y: U32): U32 { if y == 0 then TWO32 - 1 else x / y % TWO32 }

  function RemU32(x: U32, y: U32): U32 { if y == 0 then x else x % y % TWO32 }

  lemma {:induction false} SignedOfExtension(a: U64)
    ensures Signed(SignExtend32(a)) == Signed32(a % TWO32)
    ensures SignExtend32(a) == 0 <==> a % TWO32 == 0
    ensures SignExtend32(a) != TWO63
  {
  }

  lemma {:induction false} LowOfWrap(x: int)
    ensures Wrap(x) % TWO32 == x % TWO32
  {
  }

  lemma {:induction false} Mod32Unique(x: int, k: int, r: U32)
    requires x == r + k * TWO32
    ensures x % TWO32 == r
  {
  }

  lemma {:induction false} ExtensionOfLow(a: U64, b: U64)
    requires a % TWO32 == b % TWO32
    ensures SignExtend32(a) == SignExtend32(b)
  {
  }

  /** Extending, dividing in 64 bits and truncating is 32-bit division, in all four forms. */
  lemma {:induction false} WordDivision(a: U64, b: U64)
    ensures DivW(a, b) == SignExtend32(Div32(a % TWO32, b % TWO32))
    ensures RemW(a, b) == SignExtend32(Rem32(a % TWO32, b % TWO32))
    ensures DivUW(a, b) == SignExtend32(DivU32(a % TWO32, b % TWO32))
    ensures RemUW(a, b) == SignExtend32(RemU32(a % TWO32, b % TWO32))
  {
    SignedWordDivision(a, b);
    UnsignedWordDivision(a, b);
  }

  lemma {:induction false} SignedWordDivision(a: U64, b: U64)
    ensures DivW(a, b) == SignExtend32(Div32(a % TWO32, b % TWO32))
    ensures RemW(a, b) == SignExtend32(Rem32(a % TWO32, b % TWO32))
  {
    hide TruncQuot, TruncRem, SignExtend32;
    SignedOfExtension(a);
    SignedOfExtension(b);
    var x, y := a % TWO32, b % TWO32;
    if y == 0 {
      Mod32Unique(U64_MAX, TWO32 - 1, TWO32 - 1);
      Mod32Unique(TWO32 - 1, 0, TWO32 - 1);
      ExtensionOfLow(U64_MAX, TWO32 - 1);
      ExtendTwice(a);
    } else {
      var q, r := TruncQuot(Signed32(x), Signed32(y)), TruncRem(Signed32(x), Signed32(y));
      LowOfWrap(q);
      LowOfWrap(r);
      OverflowIn32(x, y);
      Mod32Unique(q % TWO32, 0, q % TWO32);
      Mod32Unique(r % TWO32, 0, r % TWO32);
      ExtensionOfLow(Wrap(q), Div32(x, y));
      ExtensionOfLow(Wrap(r), Rem32(x, y));
    }
  }

  lemma {:induction false} ExtendTwice(a: U64)
    ensures SignExtend32(SignExtend32(a)) == SignExtend32(a % TWO32) == SignExtend32(a)
  {
  }

  /** The quotient that overflows 32 bits is congruent to what the standard asks for. */
  lemma {:induction false} OverflowIn32(x: U32, y: U32)
    requires y != 0
    ensures Div32(x, y) == TruncQuot(Signed32(x), Signed32(y)) % TWO32
    ensures Rem32(x, y) == TruncRem(Signed32(x), Signed32(y)) % TWO32
  {
  }

  lemma {:induction false} UnsignedWordDivision(a: U64, b: U64)
    ensures DivUW(a, b) == SignExtend32(DivU32(a % TWO32, b % TWO32))
    ensures RemUW(a, b) == SignExtend32(RemU32(a % TWO32, b % TWO32))
  {
    hide SignExtend32;
    var x, y := a % TWO32, b % TWO32;
    if y == 0 {
      Mod32Unique(U64_MAX, TWO32 - 1, TWO32 - 1);
      Mod32Unique(TWO32 - 1, 0, TWO32 - 1);
      ExtensionOfLow(U64_MAX, TWO32 - 1);
    } else {
      QuotientBound(x, y);
      WrapUnique(x / y, 0, x / y);
      WrapUnique(x % y, 0, x % y);
      Mod32Unique(x / y, 0, x / y);
      Mod32Unique(x % y, 0, x % y);
    }
  }

  /** And the same law modulo 2^32. */
  lemma {:induction false} WordDivisionLaw(x: U32, y: U32)
    ensures (y * DivU32(x, y) + RemU32(x, y)) % TWO32 == x
    ensures (y * Div32(x, y) + Rem32(x, y)) % TWO32 == x
  {
    WordUnsignedLaw(x, y);
    WordSignedLaw(x, y);
  }

  lemma {:induction false} WordUnsignedLaw(x: U32, y: U32)
    ensures (y * DivU32(x, y) + RemU32(x, y)) % TWO32 == x
  {
    if y != 0 {
      assert x == y * (x / y) + x % y;
      QuotientBound(x, y);
      Mod32Unique(x / y, 0, x / y);
      Mod32Unique(x % y, 0, x % y);
    }
    Mod32Unique(x, 0, x);
  }

  lemma {:induction false} WordSignedLaw(x: U32, y: U32)
    ensures (y * Div32(x, y) + Rem32(x, y)) % TWO32 == x
  {
    if y == 0 {
      Mod32Unique(x, 0, x);
    } else {
      OverflowIn32(x, y);
      hide TruncQuot, TruncRem, Div32, Rem32;
      var q, r := TruncQuot(Signed32(x), Signed32(y)), TruncRem(Signed32(x), Signed32(y));
      TruncatedDivision(Signed32(x), Signed32(y));
      var ky, kx := if y < TWO31 then 0 else 1, if x < TWO31 then 0 else 1;
      LawExpansion(Signed32(y), ky, q % TWO32, q / TWO32, r % TWO32, r / TWO32, TWO32);
      Mod32Unique(y * (q % TWO32) + r % TWO32, ky * (q % TWO32) - Signed32(y) * (q / TWO32) - r / TWO32 - kx, x);
    }
  }
}
