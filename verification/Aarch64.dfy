/**
 The register bodies of the fused instructions in the assembly core (src/machine/asm/execute_aarch64.S).
 They read all their operands, work on the carry flag, and then store; the Rust handlers write and read in
 turns. Under the decoder's guards both leave the same registers.
 */
module Aarch64 {
  import opened Words
  import opened PagedMemory
  import opened Instructions
  import opened Machine
  import opened Fusion
  import opened FusionProof
  import opened Arithmetic
  import opened Division

  // ---------------------------------------------------------------- host instructions

  /** The carry flag after `adds`. */
  function CarryOf(a: U64, b: U64): U64 { if a + b >= TWO64 then 1 else 0 }

  /** The carry flag after `subs`: set when there is no borrow. */
  function NoBorrow(a: U64, b: U64): U64 { if a >= b then 1 else 0 }

  function AdcInst(a: U64, b: U64, carry: U64): U64 { Wrap(a + b + carry) }

  /** `eor x, x, 1` on a flag. */
  function Flip(flag: U64): U64
    requires flag <= 1
  {
    1 - flag
  }

  function Neg(a: U64): U64 { Wrap(0 - a as int) }

  function Mvn(a: U64): U64 { U64_MAX - a }

  function Umulh(a: U64, b: U64): U64 { Wrap(a * b / TWO64) }

  function Smulh(a: U64, b: U64): U64 { Wrap(Signed(a) * Signed(b) / TWO64) }

  /** Signed division: zero for a zero divisor, and it wraps. */
  function Sdiv(a: U64, b: U64): U64 { if b == 0 then 0 else Wrap(TruncQuot(Signed(a), Signed(b))) }

  function Udiv(a: U64, b: U64): U64 { if b == 0 then 0 else Wrap(a / b) }

  /** `msub d, n, m, a`: a - n * m. */
  function Msub(n: U64, m: U64, a: U64): U64 { Wrap(a - n * m) }

  // ---------------------------------------------------------------- signed by unsigned high product

  /** Negate, multiply high unsigned, complement, and add one if the low half is zero. */
  function MulhsuBody(a: U64, b: U64): U64 {
    if a < TWO63 then Umulh(a, b)
    else
      var high := Mvn(Umulh(Neg(a), b));
      if Mul(a, b) == 0 then Wrap(high + 1) else high
  }

  lemma {:induction false} FloorOfNegative(p: int)
    requires p >= 0
    ensures (-p) / TWO64 == if p % TWO64 == 0 then -(p / TWO64) else -(p / TWO64) - 1
  {
  }

  lemma {:induction false} NegativeOperand(a: U64)
    requires a >= TWO63
    ensures Neg(a) == TWO64 - a && Signed(a) == 0 - Neg(a) as int
  {
  }

  lemma {:induction false} LowIsZero(a: U64, b: U64)
    requires a >= TWO63
    ensures Mul(a, b) == 0 <==> (Neg(a) * b) % TWO64 == 0
  {
    NegativeOperand(a);
    var p := Neg(a) * b;
    assert a * b == -p + b * TWO64 by { assert (TWO64 - Neg(a)) * b == TWO64 * b - Neg(a) * b; }
    WrapShift(-p, b);
    NegatedResidue(p);
  }

  lemma {:induction false} NegatedResidue(p: int)
    ensures Wrap(-p) == 0 <==> p % TWO64 == 0
  {
  }

  /** The body computes the high half of the signed by unsigned product. */
  lemma {:induction false} MulhsuExact(a: U64, b: U64)
    ensures MulhsuBody(a, b) == MulHighSignedUnsigned(a, b)
  {
    if a >= TWO63 {
      NegativeOperand(a);
      var p: int := Neg(a) as int * b as int;
      assert Signed(a) * b == -p;
      FloorOfNegative(p);
      LowIsZero(a, b);
      ProductRanges(Neg(a), b);
      hide Neg, Mul;
      HighInRange(p);
    }
  }

  /** Complement and increment of a high half are its negation and one less, modulo 2^64. */
  lemma {:induction false} HighInRange(p: nat)
    requires p < TWO64 * TWO64
    ensures var q := p / TWO64;
            && Wrap(q) == q && Wrap(-q - 1) == Mvn(q) && Wrap(Mvn(q) + 1) == Wrap(-q)
  {
  }

  // ---------------------------------------------------------------- the bodies

  /** Registers as the assembly sees them: x0 reads as zero because every body clears it again. */
  ghost predicate Ready(regs: array<U64>)
    reads regs
  {
    regs.Length == 32 && regs[0] == 0
  }

  /** WIDE_MUL, WIDE_MULU and WIDE_MULSU: low half to rs3, high half to rd, then x0 cleared. */
  method WideMul(regs: array<U64>, op: R4Op, rd: Reg, rs1: Reg, rs2: Reg, rs3: Reg)
    requires Ready(regs) && (op == WIDE_MUL || op == WIDE_MULU || op == WIDE_MULSU) && rd != rs3
    modifies regs
    ensures Ready(regs) && regs[..] == R4Effect(op, old(regs[..]), rd, rs1, rs2, rs3)
  {
    hide Mul, MulHighSigned, MulHighUnsigned, MulHighSignedUnsigned, MulhsuBody, Smulh, Umulh;
    var a, b := regs[rs1], regs[rs2];
    var low := Mul(a, b);
    var high := match op case WIDE_MUL => Smulh(a, b) case WIDE_MULU => Umulh(a, b) case _ => MulhsuBody(a, b);
    HighProducts(a, b);
    regs[rs3] := low;
    regs[rd] := high;
    regs[0] := 0;
    assert regs[..] == R4Effect(op, old(regs[..]), rd, rs1, rs2, rs3);
  }

  lemma {:induction false} HighProducts(a: U64, b: U64)
    ensures Smulh(a, b) == MulHighSigned(a, b) && Umulh(a, b) == MulHighUnsigned(a, b)
    ensures MulhsuBody(a, b) == MulHighSignedUnsigned(a, b)
  {
    MulhsuExact(a, b);
  }

  /** WIDE_DIV: the overflowing quotient and a zero divisor are taken out before dividing. */
  method WideDiv(regs: array<U64>, rd: Reg, rs1: Reg, rs2: Reg, rs3: Reg)
    requires Ready(regs) && rd != rs3
    modifies regs
    ensures Ready(regs) && regs[..] == R4Effect(WIDE_DIV, old(regs[..]), rd, rs1, rs2, rs3)
  {
    hide DivSigned, RemSigned, Sdiv, Msub, R4Effect;
    var a, b := regs[rs1], regs[rs2];
    var quotient, remainder := a, 0;
    SignedDivisionBody(a, b);
    if a == TWO63 && b == U64_MAX {
      remainder := 0;
    } else if b == 0 {
      remainder := a;
      quotient := U64_MAX;
    } else {
      quotient := Sdiv(a, b);
      remainder := Msub(quotient, b, a);
    }
    regs[rs3] := remainder;
    regs[rd] := quotient;
    regs[0] := 0;
    WideDivEffect(old(regs[..]), rd, rs1, rs2, rs3);
    assert regs[..] == R4Effect(WIDE_DIV, old(regs[..]), rd, rs1, rs2, rs3);
  }

  lemma {:induction false} WideDivEffect(regs: Registers, rd: Reg, rs1: Reg, rs2: Reg, rs3: Reg)
    requires rd != rs3 && regs[0] == 0
    ensures R4Effect(WIDE_DIV, regs, rd, rs1, rs2, rs3)
            == regs[rs3 := RemSigned(regs[rs1], regs[rs2])][rd := DivSigned(regs[rs1], regs[rs2])][0 := 0]
    ensures R4Effect(WIDE_DIVU, regs, rd, rs1, rs2, rs3)
            == regs[rs3 := RemUnsigned(regs[rs1], regs[rs2])][rd := DivUnsigned(regs[rs1], regs[rs2])][0 := 0]
  {
  }

  lemma {:induction false} SignedDivisionBody(a: U64, b: U64)
    ensures b == 0 ==> DivSigned(a, b) == U64_MAX && RemSigned(a, b) == a
    ensures a == TWO63 && b == U64_MAX ==> DivSigned(a, b) == a && RemSigned(a, b) == 0
    ensures b != 0 && !(a == TWO63 && b == U64_MAX) ==> DivSigned(a, b) == Sdiv(a, b) && RemSigned(a, b) == Msub(Sdiv(a, b), b, a)
  {
    hide TruncQuot;
    if b != 0 && !DivOverflows(a, b) {
      var q := TruncQuot(Signed(a), Signed(b));
      WrapMulSub(a, b, q);
      assert q * Signed(b) == Signed(b) * q;
    }
  }

  method WideDivu(regs: array<U64>, rd: Reg, rs1: Reg, rs2: Reg, rs3: Reg)
    requires Ready(regs) && rd != rs3
    modifies regs
    ensures Ready(regs) && regs[..] == R4Effect(WIDE_DIVU, old(regs[..]), rd, rs1, rs2, rs3)
  {
    hide DivUnsigned, RemUnsigned, Udiv, Msub, R4Effect;
    var a, b := regs[rs1], regs[rs2];
    UnsignedDivisionBody(a, b);
    if b == 0 {
      regs[rs3] := a;
      regs[rd] := U64_MAX;
    } else {
      var quotient := Udiv(a, b);
      regs[rs3] := Msub(quotient, b, a);
      regs[rd] := quotient;
    }
    regs[0] := 0;
    WideDivEffect(old(regs[..]), rd, rs1, rs2, rs3);
    assert regs[..] == R4Effect(WIDE_DIVU, old(regs[..]), rd, rs1, rs2, rs3);
  }

  lemma {:induction false} UnsignedDivisionBody(a: U64, b: U64)
    ensures b == 0 ==> DivUnsigned(a, b) == U64_MAX && RemUnsigned(a, b) == a
    ensures b != 0 ==> DivUnsigned(a, b) == Udiv(a, b) && RemUnsigned(a, b) == Msub(Udiv(a, b), b, a)
  {
    if b != 0 {
      DivMod(a, b);
      QuotientBound(a, b);
      WrapUnique(a / b, 0, a / b);
      assert a - (a / b) * b == a % b;
    }
  }

  /** ADC: two carries, or-ed. */
  method AdcBody(regs: array<U64>, rd: Reg, rs1: Reg, rs2: Reg)
    requires Ready(regs) && rd != rs1 && rd != rs2 && rs1 != rs2 && rd != ZERO && rs1 != ZERO && rs2 != ZERO
    modifies regs
    ensures Ready(regs) && regs[..] == AdcEffect(old(regs[..]), rd, rs1, rs2)
  {
    hide Or, AdcEffect;
    AdcClosed(regs[..], rd, rs1, rs2);
    var temp1, temp2, temp5 := 0, 0, 0;
    var temp3, temp4 := regs[rd], regs[rs1];
    Carries(temp3, temp4);
    var carry := CarryOf(temp3, temp4);
    temp3 := Add(temp3, temp4);
    temp1 := AdcInst(temp1, temp5, carry);
    temp4 := regs[rs2];
    Carries(temp3, temp4);
    carry := CarryOf(temp3, temp4);
    temp3 := Add(temp3, temp4);
    temp2 := AdcInst(temp2, temp5, carry);
    temp1 := Or(temp1, temp2);
    regs[rs1] := temp1;
    regs[rs2] := temp2;
    regs[rd] := temp3;
    regs[0] := 0;
    assert regs[..] == AdcEffect(old(regs[..]), rd, rs1, rs2);
  }

  /** The hardware carry is the comparison the handlers make, and so is the borrow. */
  lemma {:induction false} Carries(a: U64, b: U64)
    ensures CarryOf(a, b) == Lt(Add(a, b), b) == Lt(Add(a, b), a) && AdcInst(0, 0, CarryOf(a, b)) == CarryOf(a, b)
    ensures Flip(NoBorrow(a, b)) == Lt(a, b) == Lt(a, Sub(a, b)) && AdcInst(0, 0, NoBorrow(a, b)) == NoBorrow(a, b)
  {
  }

  method SbbBody(regs: array<U64>, rd: Reg, rs1: Reg, rs2: Reg, rs3: Reg)
    requires Ready(regs) && SbbOperands(rd, rs1, rs2, rs3)
    modifies regs
    ensures Ready(regs) && regs[..] == SbbEffect(old(regs[..]), rd, rs1, rs2, rs3)
  {
    hide Or, SbbEffect;
    SbbClosed(regs[..], rd, rs1, rs2, rs3);
    var temp1, temp2, temp5 := 0, 0, 0;
    var temp3, temp4 := regs[rd], regs[rs1];
    Carries(temp3, temp4);
    var carry := NoBorrow(temp3, temp4);
    temp3 := Sub(temp3, temp4);
    temp1 := Flip(AdcInst(temp1, temp5, carry));
    temp4 := regs[rs2];
    Carries(temp3, temp4);
    carry := NoBorrow(temp3, temp4);
    temp3 := Sub(temp3, temp4);
    temp2 := Flip(AdcInst(temp2, temp5, carry));
    regs[rs2] := temp2;
    regs[rs3] := temp1;
    OrSwaps(temp1, temp2);
    temp1 := Or(temp1, temp2);
    regs[rs1] := temp1;
    regs[rd] := temp3;
    regs[0] := 0;
    assert regs[..] == SbbEffect(old(regs[..]), rd, rs1, rs2, rs3);
  }

  lemma {:induction false} OrSwaps(a: U64, b: U64)
    requires a <= 1 && b <= 1
    ensures Or(a, b) == Or(b, a)
  {
    hide Or;
    OrOfFlags(a, b);
    OrOfFlags(b, a);
  }

  /** ADCS and SBBS: rd is stored first, x0 is cleared last. */
  method CarryOut(regs: array<U64>, op: R4Op, rd: Reg, rs1: Reg, rs2: Reg, rs3: Reg)
    requires Ready(regs) && (op == ADCS || op == SBBS)
    modifies regs
    ensures Ready(regs) && regs[..] == R4Effect(op, old(regs[..]), rd, rs1, rs2, rs3)
  {
    var a, b := regs[rs1], regs[rs2];
    Carries(a, b);
    hide Lt, Add, Sub, CarryOf, NoBorrow, AdcInst;
    var flag := if op == ADCS then AdcInst(0, 0, CarryOf(a, b)) else Flip(AdcInst(0, 0, NoBorrow(a, b)));
    regs[rd] := if op == ADCS then Add(a, b) else Sub(a, b);
    regs[rs3] := flag;
    regs[0] := 0;
    assert regs[..] == R4Effect(op, old(regs[..]), rd, rs1, rs2, rs3);
  }

  method Add3Body(regs: array<U64>, op: R5Op, rd: Reg, rs1: Reg, rs2: Reg, rs3: Reg, rs4: Reg)
    requires Ready(regs) && Add3Operands(op, rd, rs1, rs2, rs4)
    modifies regs
    ensures Ready(regs) && regs[..] == R5Effect(op, old(regs[..]), rd, rs1, rs2, rs3, rs4)
  {
    var a, b, c := if op == ADD3A then regs[rd] else regs[rs1], if op == ADD3A then regs[rs1] else regs[rs2], regs[rs4];
    Carries(a, b);
    CarryIntoSum(a, b, c);
    hide Lt, Add, CarryOf, AdcInst;
    var carry := CarryOf(a, b);
    var flag := AdcInst(0, 0, carry);
    var third := if op == ADD3C then AdcInst(0, c, carry) else Add(flag, c);
    regs[rd] := Add(a, b);
    match op {
      case ADD3A => regs[rs2] := flag;
      case ADD3B => regs[rs1] := flag;
      case ADD3C =>
    }
    regs[rs3] := third;
    regs[0] := 0;
    assert regs[..] == R5Effect(op, old(regs[..]), rd, rs1, rs2, rs3, rs4);
  }

  lemma {:induction false} CarryIntoSum(a: U64, b: U64, c: U64)
    ensures AdcInst(0, c, CarryOf(a, b)) == Add(CarryOf(a, b), c)
  {
  }

  // ---------------------------------------------------------------- every fused register instruction

  /** Whatever register instruction the decoder fuses, the assembly body does what the handler does. */
  method FusedBody(regs: array<U64>, ghost env: Env, ghost pc: U64, w: seq<RawInst>, f: Inst)
    requires Ready(regs) && |w| > 0 && Fuse(VERSION2, pc, w) == Some(f) && !f.body.U?
    modifies regs
    ensures Ready(regs) && IsRegisterOp(f.body) && regs[..] == RegisterEffect(env, f.body, old(regs[..]), pc)
  {
    FusedOperands(pc, w, f);
    hide Fuse, AdcEffect, R4Effect, R5Effect;
    match f.body {
      case R(_, rd, rs1, rs2) => AdcBody(regs, rd, rs1, rs2);
      case R4(op, rd, rs1, rs2, rs3) =>
        match op {
          case SBB => SbbBody(regs, rd, rs1, rs2, rs3); SbbIsR4(old(regs[..]), rd, rs1, rs2, rs3);
          case WIDE_DIV => WideDiv(regs, rd, rs1, rs2, rs3);
          case WIDE_DIVU => WideDivu(regs, rd, rs1, rs2, rs3);
          case ADCS => CarryOut(regs, op, rd, rs1, rs2, rs3);
          case SBBS => CarryOut(regs, op, rd, rs1, rs2, rs3);
          case _ => WideMul(regs, op, rd, rs1, rs2, rs3);
        }
      case R5(op, rd, rs1, rs2, rs3, rs4) => Add3Body(regs, op, rd, rs1, rs2, rs3, rs4);
    }
  }

  lemma {:induction false} SbbIsR4(regs: Registers, rd: Reg, rs1: Reg, rs2: Reg, rs3: Reg)
    ensures R4Effect(SBB, regs, rd, rs1, rs2, rs3) == SbbEffect(regs, rd, rs1, rs2, rs3)
  {
  }

  /** The operand facts each body needs, out of the guards. */
  lemma {:induction false} FusedOperands(pc: U64, w: seq<RawInst>, f: Inst)
    requires |w| > 0 && Fuse(VERSION2, pc, w) == Some(f) && !f.body.U?
    ensures match f.body
            case R(op, rd, rs1, rs2) =>
              op == ADC && rd != rs1 && rd != rs2 && rs1 != rs2 && rd != ZERO && rs1 != ZERO && rs2 != ZERO
            case R4(op, rd, rs1, rs2, rs3) =>
              (op == SBB ==> SbbOperands(rd, rs1, rs2, rs3)) && (op != SBB && op != ADCS && op != SBBS ==> rd != rs3)
            case R5(op, rd, rs1, rs2, rs3, rs4) => Add3Operands(op, rd, rs1, rs2, rs4)
            case _ => false
  {
    hide Length;
  }
}
