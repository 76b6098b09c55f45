/** Every fused instruction does what the instructions it stands for do. */
module FusionProof {
  import opened Words
  import opened PagedMemory
  import opened Instructions
  import opened Machine
  import opened Fusion

  // ---------------------------------------------------------------- registers only

  lemma {:induction false} AdcIsFive(regs: Registers, h: Body, n: Body, k: Body, b: Body, t: Body)
    requires AdcGuard(h, n, k, b, t)
    ensures AdcEffect(regs, h.rd, n.rd, b.rd)
            == var r1 := Apply2(ADD, regs, h.rd, h.rs1, h.rs2);
               var r2 := Apply2(SLTU, r1, n.rd, n.rs1, n.rs2);
               var r3 := Apply2(ADD, r2, k.rd, k.rs1, k.rs2);
               var r4 := Apply2(SLTU, r3, b.rd, b.rs1, b.rs2);
               Apply2(OR, r4, t.rd, t.rs1, t.rs2)
  {
  }

  ghost function Add3Raw(regs: Registers, i0: Body, i1: Body, i2: Body): Registers
    requires Add3Shape(i0, i1, i2)
  {
    var r1 := Apply2(ADD, regs, i0.rd, i0.rs1, i0.rs2);
    var r2 := Apply2(SLTU, r1, i1.rd, i1.rs1, i1.rs2);
    Apply2(ADD, r2, i2.rd, i2.rs1, i2.rs2)
  }

  lemma {:induction false} Add3aIsThree(regs: Registers, i0: Body, i1: Body, i2: Body)
    requires Add3aGuard(i0, i1, i2)
    ensures R5Effect(ADD3A, regs, i0.rd, i0.rs1, i1.rd, i2.rd, i2.rs2) == Add3Raw(regs, i0, i1, i2)
  {
  }

  lemma {:induction false} Add3bIsThree(regs: Registers, i0: Body, i1: Body, i2: Body)
    requires Add3bGuard(i0, i1, i2)
    ensures R5Effect(ADD3B, regs, i0.rd, i0.rs1, i0.rs2, i2.rd, i2.rs2) == Add3Raw(regs, i0, i1, i2)
  {
  }

  lemma {:induction false} Add3cIsThree(regs: Registers, i0: Body, i1: Body, i2: Body)
    requires Add3cGuard(i0, i1, i2)
    ensures R5Effect(ADD3C, regs, i0.rd, i0.rs1, i0.rs2, i1.rd, i2.rs2) == Add3Raw(regs, i0, i1, i2)
  {
  }

  /** What the guards of the three-instruction additions say about the operands. */
  predicate Add3Operands(op: R5Op, rd: Reg, rs1: Reg, rs2: Reg, rs4: Reg) {
    && rd != rs1 && rd != rs4 && rd != ZERO
    && (op == ADD3A ==> rs2 != rs4 && rs2 != ZERO)
    && (op == ADD3B ==> rs1 != rs4 && rs1 != ZERO)
  }

  lemma {:induction false} AdcsIsTwo(regs: Registers, h: Body, i1: Body)
    requires AdcsGuard(h, i1)
    ensures var i0 := AdcsHead(h);
            R4Effect(ADCS, regs, i0.rd, i0.rs1, i0.rs2, i1.rd)
            == Apply2(SLTU, Apply2(ADD, regs, h.rd, h.rs1, h.rs2), i1.rd, i1.rs1, i1.rs2)
  {
  }

  lemma {:induction false} SbbsIsTwo(regs: Registers, i0: Body, i1: Body)
    requires SbbsGuard(i0, i1)
    ensures R4Effect(SBBS, regs, i0.rd, i0.rs1, i0.rs2, i1.rd)
            == Apply2(SLTU, Apply2(SUB, regs, i0.rd, i0.rs1, i0.rs2), i1.rd, i1.rs1, i1.rs2)
  {
  }

  lemma {:induction false} WideIsTwo(regs: Registers, h: Body, n: Body)
    requires WideGuard(h, n)
    ensures R4Effect(WidePartner(h.rop).value.1, regs, h.rd, h.rs1, h.rs2, n.rd)
            == Apply2(n.rop, Apply2(h.rop, regs, h.rd, h.rs1, h.rs2), n.rd, n.rs1, n.rs2)
  {
    hide Mul, MulHighSigned, MulHighUnsigned, MulHighSignedUnsigned, DivSigned, DivUnsigned, RemSigned, RemUnsigned;
  }

  // ---------------------------------------------------------------- subtract with borrow

  /** The five instructions of a subtract with borrow, with `t` the second source of the first SLTU. */
  ghost function SbbRaw(regs: Registers, rd: Reg, rs1: Reg, rs2: Reg, rs3: Reg, t: Reg): Registers {
    var r1 := Apply2(SUB, regs, rs1, rd, rs1);
    var r2 := Apply2(SLTU, r1, rs3, rd, t);
    var r3 := Apply2(SUB, r2, rd, rs1, rs2);
    var r4 := Apply2(SLTU, r3, rs2, rs1, rd);
    Apply2(OR, r4, rs1, rs2, rs3)
  }

  /** What the guards of the rule establish about the operands. */
  predicate SbbOperands(rd: Reg, rs1: Reg, rs2: Reg, rs3: Reg) {
    && rd != rs1 && rd != rs2 && rd != rs3 && rs1 != rs2 && rs1 != rs3 && rs2 != rs3
    && rd != ZERO && rs1 != ZERO && rs2 != ZERO && rs3 != ZERO
  }

  /** The comparison with `t` gives the borrow of the first subtraction. */
  predicate BorrowRight(regs: Registers, rd: Reg, rs1: Reg, t: Reg) {
    var r1 := Apply2(SUB, regs, rs1, rd, rs1);
    Lt(r1[rd], r1[t]) == Lt(r1[rd], r1[rs1])
  }

  /** On one register file the two agree exactly when the unchecked comparison gives the right borrow. */
  lemma {:induction false} SbbAgrees(regs: Registers, rd: Reg, rs1: Reg, rs2: Reg, rs3: Reg, t: Reg)
    requires SbbOperands(rd, rs1, rs2, rs3)
    ensures SbbRaw(regs, rd, rs1, rs2, rs3, t) == SbbEffect(regs, rd, rs1, rs2, rs3) <==> BorrowRight(regs, rd, rs1, t)
  {
    hide Or, Sub;
    var r1 := Apply2(SUB, regs, rs1, rd, rs1);
    assert SbbRaw(regs, rd, rs1, rs2, rs3, t)[rs3] == Lt(r1[rd], r1[t]);
    assert SbbEffect(regs, rd, rs1, rs2, rs3)[rs3] == Lt(r1[rd], r1[rs1]);
  }

  /** A register file on which every other second source goes wrong. */
  function BorrowWitness(rs1: Reg): Registers { seq(32, i => if i == rs1 then 1 else 0) }

  // ---------------------------------------------------------------- jump targets

  /** The absolute target survives the i32 addition exactly when that does not overflow. */
  lemma {:induction false} TargetsAgree(a: I32, b: I32)
    ensures ClearBit0(Add(FromI32(a), FromI32(b))) == ClearBit0(FromI32(WrapI32(a + b))) <==> FitsI32(a + b)
  {
  }

  /** For decoded immediates the sum overflows only below the most negative LUI. */
  lemma {:induction false} FarJumpAbsOverflow(upper: I32, lower: I32)
    requires upper % 0x1000 == 0 && -0x800 <= lower < 0x800
    ensures !FitsI32(upper + lower) <==> upper == -TWO31 && lower < 0
  {
  }

  lemma {:induction false} AddImmediates(pc: U64, a: I32, b: I32)
    requires FitsI32(a + b)
    ensures Add(Add(pc, FromI32(a)), FromI32(b)) == Add(pc, FromI32(a + b))
  {
  }

  lemma {:induction false} AddSmallPc(pc: U64, a: I32, b: I32)
    requires FitsI32(pc) && FitsI32(a + b + pc)
    ensures Add(Add(pc, FromI32(a)), FromI32(b)) == FromI32(a + b + pc)
  {
  }
}
