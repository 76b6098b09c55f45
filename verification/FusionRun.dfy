/** Whole runs: with fusion on, the machine goes where it goes with fusion off. */
module FusionRun {
  import opened Words
  import opened PagedMemory
  import opened Instructions
  import opened Machine
  import opened Fusion
  import opened FusionProof
  import opened Stepper
  import opened PaidRuns

  // ---------------------------------------------------------------- single instructions

  function RawStep(env: Env, s: State): Result<State>
  {
    match DecodeRaw(env, s.mem, s.pc)
    case Err(e) => Err(e)
    case Ok(i) => Execute(env, i, s)
  }

  /** Up to `n` unfused instructions, with no loop around them; `StepsAreTurns` and `PaidRuns` link them to the run loop. */
  function RunRaw(env: Env, s: State, n: nat): Result<State>
    decreases n
  {
    if n == 0 || !s.running then Ok(s)
    else
      match RawStep(env, s)
      case Err(e) => Err(e)
      case Ok(s1) => RunRaw(env, s1, n - 1)
  }

  function Moved(s: State, regs: Registers, pc: U64): State { s.(regs := regs, pc := pc, nextPc := pc) }

  lemma {:induction false} ExecuteRegister(env: Env, i: Inst, s: State)
    requires IsRegisterOp(i.body)
    ensures Execute(env, i, s) == Ok(Moved(s, RegisterEffect(env, i.body, s.regs, s.pc), Add(s.pc, i.len)))
  {
    hide RegisterEffect, IsRegisterOp;
  }

  function Jumped(s: State, rd: Reg, len: Len, target: U64): State {
    Moved(s, Set(s.regs, rd, Add(s.pc, len)), target)
  }

  lemma {:induction false} ExecuteJalr(env: Env, i: Inst, s: State)
    requires IsI(i.body, JALR)
    ensures Execute(env, i, s) == Ok(Jumped(s, i.body.rd, i.len, ClearBit0(Add(s.regs[i.body.rs1], FromI32(i.body.imm)))))
  {
    hide ClearBit0, Add, FromI32;
  }

  lemma {:induction false} ExecuteFarJump(env: Env, i: Inst, s: State)
    requires i.body.U? && (i.body.uop == FAR_JUMP_REL || i.body.uop == FAR_JUMP_ABS)
    ensures var base := if i.body.uop == FAR_JUMP_REL then Add(s.pc, FromI32(i.body.imm)) else FromI32(i.body.imm);
            Execute(env, i, s) == Ok(Jumped(s, RA, i.len, ClearBit0(base)))
  {
    hide ClearBit0, Add, FromI32;
  }

  // ---------------------------------------------------------------- windows and runs

  /** Instruction `i` of the window is the code found there, below 2^63. */
  ghost predicate CodeAt(env: Env, m: Memory, pc: U64, w: seq<RawInst>, i: nat)
    requires i < |w|
  {
    pc + Length(w, i) < |m.bytes| && DecodeRaw(env, m, pc + Length(w, i)) == Ok(w[i])
  }

  ghost predicate IsCode(env: Env, m: Memory, pc: U64, w: seq<RawInst>) {
    forall i: nat :: i < |w| ==> CodeAt(env, m, pc, w, i)
  }

  lemma {:induction false} LengthOfPrefix(w: seq<RawInst>, x: RawInst, n: nat)
    requires n <= |w|
    ensures Length(w + [x], n) == Length(w, n)
  {
    if n > 0 { LengthOfPrefix(w, x, n - 1); }
  }

  lemma {:induction false} CodeAtEarlier(env: Env, m: Memory, pc: U64, w: seq<RawInst>, x: RawInst, i: nat)
    requires i < |w| && CodeAt(env, m, pc, w, i)
    ensures CodeAt(env, m, pc, w + [x], i)
  {
    hide DecodeRaw;
    LengthOfPrefix(w, x, i);
  }

  lemma {:induction false} CodeAtEnd(env: Env, m: Memory, pc: U64, w: seq<RawInst>, x: RawInst)
    requires pc + Length(w, |w|) < TWO64 && DecodeRaw(env, m, pc + Length(w, |w|)) == Ok(x)
    ensures CodeAt(env, m, pc, w + [x], |w|)
  {
    DecodedIsInMemory(env, m, pc + Length(w, |w|));
    hide DecodeRaw;
    LengthOfPrefix(w, x, |w|);
  }

  lemma {:induction false} WindowIsCode(env: Env, m: Memory, pc: U64, n: nat)
    ensures IsCode(env, m, pc, Window(env, m, pc, n))
  {
    hide DecodeRaw, CodeAt, Length;
    if n > 0 {
      WindowIsCode(env, m, pc, n - 1);
      var v, w := Window(env, m, pc, n - 1), Window(env, m, pc, n);
      if w != v {
        CodeAtEnd(env, m, pc, v, w[|v|]);
        forall i: nat | i < |v|
          ensures CodeAt(env, m, pc, w, i)
        {
          CodeAtEarlier(env, m, pc, v, w[|v|], i);
        }
      }
    }
  }

  lemma {:induction false} DecodedIsInMemory(env: Env, m: Memory, pc: U64)
    requires DecodeRaw(env, m, pc).Ok?
    ensures pc < |m.bytes|
  {
  }

  /** One more step of a run that is still running. */
  lemma {:induction false} RunRawMore(env: Env, s: State, n: nat, s1: State)
    requires RunRaw(env, s, n) == Ok(s1) && s1.running
    ensures RunRaw(env, s, n + 1) == RawStep(env, s1)
    decreases n
  {
    hide RawStep;
    if n > 0 {
      RunRawMore(env, RawStep(env, s).value, n - 1, s1);
    } else {
      var r := RawStep(env, s);
      if r.Ok? { assert RunRaw(env, r.value, 0) == r; }
    }
  }

  lemma {:induction false} RunRawOne(env: Env, s: State)
    requires s.running
    ensures RunRaw(env, s, 1) == RawStep(env, s)
  {
    hide RawStep;
    assert RunRaw(env, s, 0) == Ok(s);
    RunRawMore(env, s, 0, s);
  }

  ghost predicate RegisterOps(w: seq<RawInst>, n: nat)
    requires n <= |w|
  {
    forall i :: 0 <= i < n ==> IsRegisterOp(w[i].body)
  }

  /** The registers after the first `n` instructions of straight-line code. */
  ghost function RegisterRun(env: Env, w: seq<RawInst>, n: nat, regs: Registers, pc: U64): Registers
    requires n <= |w| && RegisterOps(w, n) && pc + Length(w, n) < TWO64
    decreases n
  {
    if n == 0 then regs
    else RegisterEffect(env, w[n - 1].body, RegisterRun(env, w, n - 1, regs, pc), pc + Length(w, n - 1))
  }

  /** Straight-line register code changes nothing but registers and pc. */
  lemma {:induction false} StraightCode(env: Env, s: State, w: seq<RawInst>, n: nat)
    requires s.running && 0 < n <= |w| && IsCode(env, s.mem, s.pc, w) && RegisterOps(w, n)
    ensures s.pc + Length(w, n) < TWO64
    ensures RunRaw(env, s, n) == Ok(Moved(s, RegisterRun(env, w, n, s.regs, s.pc), s.pc + Length(w, n)))
    decreases n
  {
    hide RegisterEffect, IsRegisterOp, Execute, RunRaw, RawStep, IsCode;
    if n == 1 {
      assert Length(w, 0) == 0;
      RunRawOne(env, s);
      StepStraight(env, s, s, w, 0);
    } else {
      StraightCode(env, s, w, n - 1);
      var s1 := Moved(s, RegisterRun(env, w, n - 1, s.regs, s.pc), s.pc + Length(w, n - 1));
      RunRawMore(env, s, n - 1, s1);
      StepStraight(env, s, s1, w, n - 1);
    }
  }

  lemma {:induction false} StepStraight(env: Env, s0: State, s: State, w: seq<RawInst>, i: nat)
    requires i < |w| && IsCode(env, s0.mem, s0.pc, w) && IsRegisterOp(w[i].body)
    requires s.mem == s0.mem && s.pc == s0.pc + Length(w, i)
    ensures s0.pc + Length(w, i + 1) < TWO64
    ensures RawStep(env, s) == Ok(Moved(s, RegisterEffect(env, w[i].body, s.regs, s.pc), s0.pc + Length(w, i + 1)))
  {
    hide RegisterEffect, IsRegisterOp, Execute, DecodeRaw;
    assert CodeAt(env, s0.mem, s0.pc, w, i);
    ExecuteRegister(env, w[i], s);
  }

  // ---------------------------------------------------------------- a fused step is a few raw steps

  lemma {:induction false} RunTwo(env: Env, w: seq<RawInst>, regs: Registers, pc: U64)
    requires |w| >= 2 && RegisterOps(w, 2) && pc + Length(w, 2) < TWO64
    ensures RegisterRun(env, w, 2, regs, pc)
            == RegisterEffect(env, w[1].body, RegisterEffect(env, w[0].body, regs, pc), pc + w[0].len)
  {
    hide RegisterEffect, IsRegisterOp;
    assert Length(w, 1) == w[0].len && Length(w, 0) == 0;
    assert RegisterRun(env, w, 0, regs, pc) == regs;
    assert RegisterRun(env, w, 1, regs, pc) == RegisterEffect(env, w[0].body, regs, pc);
  }

  /** The first `n` instructions, all plain two-operand ones, on the registers. */
  ghost function Sequence(w: seq<RawInst>, n: nat, regs: Registers): Registers
    requires n <= |w| && forall i :: 0 <= i < n ==> w[i].body.R? && w[i].body.rop != ADC
  {
    if n == 0 then regs
    else var b := w[n - 1].body; Apply2(b.rop, Sequence(w, n - 1, regs), b.rd, b.rs1, b.rs2)
  }

  lemma {:induction false} RunIsSequence(env: Env, w: seq<RawInst>, n: nat, regs: Registers, pc: U64)
    requires n <= |w| && pc + Length(w, n) < TWO64 && forall i :: 0 <= i < n ==> w[i].body.R? && w[i].body.rop != ADC
    ensures RegisterOps(w, n) && RegisterRun(env, w, n, regs, pc) == Sequence(w, n, regs)
  {
    hide Apply2;
    if n > 0 { RunIsSequence(env, w, n - 1, regs, pc); }
  }

  /** How many raw instructions a fused one stands for. */
  function RawCount(b: Body): nat {
    match b
    case R(op, _, _, _) => if op == ADC then 5 else 1
    case R4(op, _, _, _, _) => if op == SBB then 5 else 2
    case R5(_, _, _, _, _, _) => 3
    case U(op, _, _) => if op == FAR_JUMP_REL || op == FAR_JUMP_ABS || op == LOAD_IMM then 2 else 1
    case _ => 1
  }

  lemma {:induction false} FusedRegisters(env: Env, s: State, w: seq<RawInst>, n: nat, f: Inst)
    requires s.running && 0 < n <= |w| && IsCode(env, s.mem, s.pc, w) && RegisterOps(w, n) && IsRegisterOp(f.body)
    requires f.len == Length(w, n) && s.pc + Length(w, n) < TWO64
    requires RegisterRun(env, w, n, s.regs, s.pc) == RegisterEffect(env, f.body, s.regs, s.pc)
    ensures RunRaw(env, s, n) == Execute(env, f, s)
  {
    hide RegisterRun, RegisterEffect, IsRegisterOp, Execute, RunRaw, IsCode, Length;
    StraightCode(env, s, w, n);
    ExecuteRegister(env, f, s);
  }

  /** Straight-line code ends below 2^64. */
  lemma {:induction false} CodeEnds(env: Env, m: Memory, pc: U64, w: seq<RawInst>, n: nat)
    requires 0 < n <= |w| && IsCode(env, m, pc, w)
    ensures pc + Length(w, n) < TWO64
  {
    hide DecodeRaw;
    assert CodeAt(env, m, pc, w, n - 1);
  }

  lemma {:induction false} SequenceOfFive(w: seq<RawInst>, regs: Registers)
    requires |w| >= 5 && forall i :: 0 <= i < 5 ==> w[i].body.R? && w[i].body.rop != ADC
    ensures Sequence(w, 5, regs)
            == var r1 := Apply2(w[0].body.rop, regs, w[0].body.rd, w[0].body.rs1, w[0].body.rs2);
               var r2 := Apply2(w[1].body.rop, r1, w[1].body.rd, w[1].body.rs1, w[1].body.rs2);
               var r3 := Apply2(w[2].body.rop, r2, w[2].body.rd, w[2].body.rs1, w[2].body.rs2);
               var r4 := Apply2(w[3].body.rop, r3, w[3].body.rd, w[3].body.rs1, w[3].body.rs2);
               Apply2(w[4].body.rop, r4, w[4].body.rd, w[4].body.rs1, w[4].body.rs2)
  {
    hide Apply2;
    SequenceOfThree(w, regs);
    assert Sequence(w, 4, regs) == Apply2(w[3].body.rop, Sequence(w, 3, regs), w[3].body.rd, w[3].body.rs1, w[3].body.rs2);
  }

  lemma {:induction false} SequenceOfThree(w: seq<RawInst>, regs: Registers)
    requires |w| >= 3 && forall i :: 0 <= i < 3 ==> w[i].body.R? && w[i].body.rop != ADC
    ensures Sequence(w, 2, regs)
            == var r1 := Apply2(w[0].body.rop, regs, w[0].body.rd, w[0].body.rs1, w[0].body.rs2);
               Apply2(w[1].body.rop, r1, w[1].body.rd, w[1].body.rs1, w[1].body.rs2)
    ensures Sequence(w, 3, regs)
            == Apply2(w[2].body.rop, Sequence(w, 2, regs), w[2].body.rd, w[2].body.rs1, w[2].body.rs2)
  {
    hide Apply2;
    SequenceOfTwo(w, regs);
  }

  lemma {:induction false} SequenceOfTwo(w: seq<RawInst>, regs: Registers)
    requires |w| >= 2 && forall i :: 0 <= i < 2 ==> w[i].body.R? && w[i].body.rop != ADC
    ensures Sequence(w, 2, regs)
            == var r1 := Apply2(w[0].body.rop, regs, w[0].body.rd, w[0].body.rs1, w[0].body.rs2);
               Apply2(w[1].body.rop, r1, w[1].body.rd, w[1].body.rs1, w[1].body.rs2)
  {
    hide Apply2;
    assert Sequence(w, 0, regs) == regs;
    assert Sequence(w, 1, regs) == Apply2(w[0].body.rop, regs, w[0].body.rd, w[0].body.rs1, w[0].body.rs2);
  }

  lemma {:induction false} AdcRuns(env: Env, s: State, w: seq<RawInst>)
    requires s.running && |w| >= 5 && IsCode(env, s.mem, s.pc, w)
    requires AdcGuard(w[0].body, w[1].body, w[2].body, w[3].body, w[4].body)
    ensures RunRaw(env, s, 5) == Execute(env, Inst(R(ADC, w[0].body.rd, w[1].body.rd, w[3].body.rd), Length(w, 5)), s)
  {
    hide Execute, RunRaw, IsCode, Sequence, Apply2, AdcEffect, Length;
    SequenceOfFive(w, s.regs);
    AdcIsFive(s.regs, w[0].body, w[1].body, w[2].body, w[3].body, w[4].body);
    SameRegisters(env, s, w, 5, Inst(R(ADC, w[0].body.rd, w[1].body.rd, w[3].body.rd), Length(w, 5)));
  }

  lemma {:induction false} Add3Runs(env: Env, s: State, w: seq<RawInst>)
    requires s.running && |w| >= 3 && IsCode(env, s.mem, s.pc, w)
    ensures Add3aGuard(w[0].body, w[1].body, w[2].body) ==>
              RunRaw(env, s, 3) == Execute(env, Inst(R5(ADD3A, w[0].body.rd, w[0].body.rs1, w[1].body.rd, w[2].body.rd, w[2].body.rs2), Length(w, 3)), s)
    ensures Add3bGuard(w[0].body, w[1].body, w[2].body) ==>
              RunRaw(env, s, 3) == Execute(env, Inst(R5(ADD3B, w[0].body.rd, w[0].body.rs1, w[0].body.rs2, w[2].body.rd, w[2].body.rs2), Length(w, 3)), s)
    ensures Add3cGuard(w[0].body, w[1].body, w[2].body) ==>
              RunRaw(env, s, 3) == Execute(env, Inst(R5(ADD3C, w[0].body.rd, w[0].body.rs1, w[0].body.rs2, w[1].body.rd, w[2].body.rs2), Length(w, 3)), s)
  {
    hide Execute, RunRaw, IsCode, Sequence, Apply2, R5Effect, Length;
    var i0, i1, i2 := w[0].body, w[1].body, w[2].body;
    if Add3Shape(i0, i1, i2) {
      SequenceOfThree(w, s.regs);
      if Add3aGuard(i0, i1, i2) {
        Add3aIsThree(s.regs, i0, i1, i2);
        SameRegisters(env, s, w, 3, Inst(R5(ADD3A, i0.rd, i0.rs1, i1.rd, i2.rd, i2.rs2), Length(w, 3)));
      }
      if Add3bGuard(i0, i1, i2) {
        Add3bIsThree(s.regs, i0, i1, i2);
        SameRegisters(env, s, w, 3, Inst(R5(ADD3B, i0.rd, i0.rs1, i0.rs2, i2.rd, i2.rs2), Length(w, 3)));
      }
      if Add3cGuard(i0, i1, i2) {
        Add3cIsThree(s.regs, i0, i1, i2);
        SameRegisters(env, s, w, 3, Inst(R5(ADD3C, i0.rd, i0.rs1, i0.rs2, i1.rd, i2.rs2), Length(w, 3)));
      }
    }
  }

  /** ADCS, SBBS and the wide multiplications and divisions. */
  lemma {:induction false} PairRuns(env: Env, s: State, w: seq<RawInst>, f: Inst)
    requires s.running && |w| >= 2 && IsCode(env, s.mem, s.pc, w) && f.len == Length(w, 2) && f.body.R4?
    requires (AdcsGuard(w[0].body, w[1].body)
              && var i0 := AdcsHead(w[0].body); f.body == R4(ADCS, i0.rd, i0.rs1, i0.rs2, w[1].body.rd))
             || (SbbsGuard(w[0].body, w[1].body)
                 && f.body == R4(SBBS, w[0].body.rd, w[0].body.rs1, w[0].body.rs2, w[1].body.rd))
             || (WideGuard(w[0].body, w[1].body)
                 && f.body == R4(WidePartner(w[0].body.rop).value.1, w[0].body.rd, w[0].body.rs1, w[0].body.rs2, w[1].body.rd))
    ensures RunRaw(env, s, 2) == Execute(env, f, s)
  {
    hide Execute, RunRaw, IsCode, Sequence, Apply2, R4Effect, Length;
    SequenceOfTwo(w, s.regs);
    if AdcsGuard(w[0].body, w[1].body) {
      AdcsIsTwo(s.regs, w[0].body, w[1].body);
    } else if SbbsGuard(w[0].body, w[1].body) {
      SbbsIsTwo(s.regs, w[0].body, w[1].body);
    } else {
      WideIsTwo(s.regs, w[0].body, w[1].body);
    }
    SameRegisters(env, s, w, 2, f);
  }

  /** The same straight-line code and fused instruction agree exactly when they agree on the registers. */
  lemma {:induction false} SameRegisters(env: Env, s: State, w: seq<RawInst>, n: nat, f: Inst)
    requires s.running && 0 < n <= |w| && IsCode(env, s.mem, s.pc, w) && IsRegisterOp(f.body) && f.len == Length(w, n)
    requires forall i :: 0 <= i < n ==> w[i].body.R? && w[i].body.rop != ADC
    ensures RunRaw(env, s, n) == Execute(env, f, s) <==> Sequence(w, n, s.regs) == RegisterEffect(env, f.body, s.regs, s.pc)
  {
    hide Sequence, RegisterEffect, Execute, RunRaw, IsCode, RegisterRun, Length;
    CodeEnds(env, s.mem, s.pc, w, n);
    RunIsSequence(env, w, n, s.regs, s.pc);
    StraightCode(env, s, w, n);
    ExecuteRegister(env, f, s);
  }

  function SbbFused(w: seq<RawInst>): Inst
    requires |w| >= 5 && SbbGuard(w[0].body, w[1].body, w[2].body, w[3].body, w[4].body)
  {
    Inst(R4(SBB, w[0].body.rs1, w[0].body.rs2, w[2].body.rs2, w[1].body.rd), Length(w, 5))
  }

  /** Code that passes the SBB guard runs as the fused instruction exactly when its first comparison gives the borrow. */
  lemma {:induction false} SbbRuns(env: Env, s: State, w: seq<RawInst>)
    requires s.running && |w| >= 5 && IsCode(env, s.mem, s.pc, w)
    requires SbbGuard(w[0].body, w[1].body, w[2].body, w[3].body, w[4].body)
    ensures RunRaw(env, s, 5) == Execute(env, SbbFused(w), s) <==> BorrowRight(s.regs, w[0].body.rs1, w[0].body.rs2, w[1].body.rs2)
  {
    hide Execute, RunRaw, IsCode, Sequence, Apply2, SbbEffect, Length, BorrowRight;
    var f := SbbFused(w).body;
    SequenceOfFive(w, s.regs);
    assert SbbRaw(s.regs, f.rd, f.rs1, f.rs2, f.rs3, w[1].body.rs2) == Sequence(w, 5, s.regs);
    SbbAgrees(s.regs, f.rd, f.rs1, f.rs2, f.rs3, w[1].body.rs2);
    SameRegisters(env, s, w, 5, SbbFused(w));
  }

  /** So it does whatever the registers hold exactly when the operand the guard forgot is the first difference. */
  lemma {:induction false} SbbRunsExact(env: Env, s: State, w: seq<RawInst>)
    requires s.running && |w| >= 5 && IsCode(env, s.mem, s.pc, w)
    requires SbbGuard(w[0].body, w[1].body, w[2].body, w[3].body, w[4].body)
    ensures (forall regs: Registers :: RunRaw(env, s.(regs := regs), 5) == Execute(env, SbbFused(w), s.(regs := regs)))
            <==> w[1].body.rs2 == w[0].body.rs2
  {
    hide Execute, RunRaw, IsCode, SbbFused, BorrowRight;
    var rd, rs1, t := w[0].body.rs1, w[0].body.rs2, w[1].body.rs2;
    forall regs: Registers
      ensures RunRaw(env, s.(regs := regs), 5) == Execute(env, SbbFused(w), s.(regs := regs)) <==> BorrowRight(regs, rd, rs1, t)
    {
      SbbRuns(env, s.(regs := regs), w);
    }
    BorrowExact(rd, rs1, t);
  }

  lemma {:induction false} BorrowExact(rd: Reg, rs1: Reg, t: Reg)
    requires rd != rs1 && rd != ZERO && rs1 != ZERO
    ensures (forall regs: Registers :: BorrowRight(regs, rd, rs1, t)) <==> t == rs1
  {
    if t != rs1 { assert !BorrowRight(BorrowWitness(rs1), rd, rs1, t); }
  }

  lemma {:induction false} LoadImmRuns(env: Env, s: State, w: seq<RawInst>, f: Inst)
    requires s.running && |w| >= 2 && IsCode(env, s.mem, s.pc, w) && w[0].body.U? && f.len == Length(w, 2)
    requires w[1].body.I? && w[1].body.rs1 == w[1].body.rd == w[0].body.rd
    requires (w[0].body.uop == LUI && w[1].body.iop == ADDIW
              && f.body == U(LOAD_IMM, w[0].body.rd, WrapI32(w[0].body.imm + w[1].body.imm)))
             || (w[0].body.uop == AUIPC && w[1].body.iop == ADDI && FitsI32(s.pc) && FitsI32(w[0].body.imm + w[1].body.imm + s.pc)
                 && f.body == U(LOAD_IMM, w[0].body.rd, w[0].body.imm + w[1].body.imm + s.pc))
    ensures RunRaw(env, s, 2) == Execute(env, f, s)
  {
    hide Execute, RunRaw, IsCode, FromI32, SignExtend32, WrapI32, Add;
    CodeEnds(env, s.mem, s.pc, w, 2);
    RunTwo(env, w, s.regs, s.pc);
    if w[0].body.uop == LUI {
      SignExtendOfImmediateSum(w[0].body.imm, w[1].body.imm);
    } else {
      AddSmallPc(s.pc, w[0].body.imm, w[1].body.imm);
    }
    FusedRegisters(env, s, w, 2, f);
  }

  /** LUI or AUIPC into ra, then JALR through ra: two raw steps. */
  lemma {:induction false} JumpThroughRa(env: Env, s: State, w: seq<RawInst>)
    requires s.running && |w| >= 2 && IsCode(env, s.mem, s.pc, w) && w[0].body.U? && FarJumpGuard(VERSION2, w[0].body, w[1].body)
    requires w[0].body.uop == LUI || w[0].body.uop == AUIPC
    ensures var h, n := w[0].body, w[1].body;
            var base := if h.uop == AUIPC then Add(s.pc, FromI32(h.imm)) else FromI32(h.imm);
            RunRaw(env, s, 2) == Ok(Jumped(s, RA, Length(w, 2), ClearBit0(Add(base, FromI32(n.imm)))))
  {
    hide Execute, RunRaw, RawStep, IsCode, FromI32, ClearBit0;
    var h := w[0].body;
    var base := if h.uop == AUIPC then Add(s.pc, FromI32(h.imm)) else FromI32(h.imm);
    StraightCode(env, s, w, 1);
    CodeEnds(env, s.mem, s.pc, w, 2);
    assert Length(w, 1) == w[0].len && Length(w, 0) == 0;
    assert RegisterRun(env, w, 1, s.regs, s.pc) == Set(s.regs, RA, base) by {
      assert RegisterRun(env, w, 0, s.regs, s.pc) == s.regs;
    }
    var s1 := Moved(s, Set(s.regs, RA, base), s.pc + w[0].len);
    RunRawMore(env, s, 1, s1);
    StepJalr(env, s, s1, w);
    assert Set(s1.regs, RA, s.pc + Length(w, 2)) == Set(s.regs, RA, s.pc + Length(w, 2));
  }

  lemma {:induction false} StepJalr(env: Env, s0: State, s: State, w: seq<RawInst>)
    requires |w| >= 2 && IsCode(env, s0.mem, s0.pc, w) && IsI(w[1].body, JALR)
    requires s.mem == s0.mem && s.pc == s0.pc + w[0].len
    ensures RawStep(env, s) == Ok(Jumped(s, w[1].body.rd, w[1].len, ClearBit0(Add(s.regs[w[1].body.rs1], FromI32(w[1].body.imm)))))
  {
    hide Execute, DecodeRaw, ClearBit0, FromI32, Add;
    assert Length(w, 1) == w[0].len by { assert Length(w, 0) == 0; }
    assert CodeAt(env, s0.mem, s0.pc, w, 1);
    ExecuteJalr(env, w[1], s);
  }

  /** At version 2, LUI+JALR goes to the same place exactly when the i32 sum of the immediates does not overflow. */
  lemma {:induction false} FarJumpAbsExact(env: Env, s: State, w: seq<RawInst>)
    requires s.running && |w| >= 2 && IsCode(env, s.mem, s.pc, w)
    requires w[0].body.U? && w[0].body.uop == LUI && FarJumpGuard(VERSION2, w[0].body, w[1].body)
    ensures RunRaw(env, s, 2) == Execute(env, FuseLui(VERSION2, w).value, s) <==> FitsI32(w[0].body.imm + w[1].body.imm)
  {
    hide Execute, RunRaw, IsCode, FromI32, ClearBit0, Add, Set, Length, WrapI32;
    JumpThroughRa(env, s, w);
    TargetsAgree(w[0].body.imm, w[1].body.imm);
    ExecuteFarJump(env, FuseLui(VERSION2, w).value, s);
  }

  lemma {:induction false} FarJumpRelRuns(env: Env, s: State, w: seq<RawInst>)
    requires s.running && |w| >= 2 && IsCode(env, s.mem, s.pc, w)
    requires w[0].body.U? && w[0].body.uop == AUIPC && FarJumpGuard(VERSION2, w[0].body, w[1].body)
    requires FitsI32(w[0].body.imm + w[1].body.imm)
    ensures RunRaw(env, s, 2) == Execute(env, FuseAuipc(VERSION2, s.pc, w).value, s)
  {
    hide Execute, RunRaw, IsCode, FromI32, ClearBit0, Add, Set, Length;
    JumpThroughRa(env, s, w);
    AddImmediates(s.pc, w[0].body.imm, w[1].body.imm);
    ExecuteFarJump(env, FuseAuipc(VERSION2, s.pc, w).value, s);
  }

  // ---------------------------------------------------------------- whole runs

  /** The machine is not about to execute one of the two shapes whose fused form does something else. */
  predicate GapFree(env: Env, s: State) {
    var w := Window(env, s.mem, s.pc, LOOKAHEAD);
    && (|w| >= 5 && SbbGuard(w[0].body, w[1].body, w[2].body, w[3].body, w[4].body) ==>
          BorrowRight(s.regs, w[0].body.rs1, w[0].body.rs2, w[1].body.rs2))
    && (|w| >= 2 && FarJumpGuard(VERSION2, w[0].body, w[1].body) && w[0].body.uop == LUI ==>
          FitsI32(w[0].body.imm + w[1].body.imm))
  }

  lemma {:induction false} LaterVersionsFuseAlike(version: nat, pc: U64, w: seq<RawInst>)
    requires |w| > 0 && version >= VERSION2
    ensures Fuse(version, pc, w) == Fuse(VERSION2, pc, w)
  {
  }

  /** Whatever a rule produces takes the machine where the raw instructions take it, but for those two shapes. */
  lemma {:induction false} FusedStep(env: Env, s: State, w: seq<RawInst>)
    requires s.running && w == Window(env, s.mem, s.pc, LOOKAHEAD) && |w| > 0 && Fuse(VERSION2, s.pc, w).Some?
    ensures var f := Fuse(VERSION2, s.pc, w).value; RunRaw(env, s, RawCount(f.body)) == Execute(env, f, s) <==> GapFree(env, s)
  {
    hide Execute, RunRaw, IsCode, Length, Window, WrapI32, BorrowRight;
    WindowIsCode(env, s.mem, s.pc, LOOKAHEAD);
    var f, h := Fuse(VERSION2, s.pc, w).value, w[0].body;
    if IsR(h, ADD) {
      if f.body.R? {
        AdcRuns(env, s, w);
      } else if f.body.R5? {
        Add3Runs(env, s, w);
      } else {
        PairRuns(env, s, w, f);
      }
    } else if IsR(h, SUB) {
      if f.body.r4op == SBB {
        SbbRuns(env, s, w);
      } else {
        PairRuns(env, s, w, f);
      }
    } else if h.R? {
      PairRuns(env, s, w, f);
    } else if f.body.uop == LOAD_IMM {
      LoadImmRuns(env, s, w, f);
    } else if h.uop == LUI {
      FarJumpAbsExact(env, s, w);
    } else {
      FarJumpRelRuns(env, s, w);
    }
  }

  /** All but the last of the instructions that are fused only write registers. */
  lemma {:induction false} FusedShape(pc: U64, w: seq<RawInst>)
    requires |w| > 0 && Fuse(VERSION2, pc, w).Some?
    ensures var k := RawCount(Fuse(VERSION2, pc, w).value.body); 2 <= k <= 5 && k <= |w| && RegisterOps(w, k - 1)
  {
    hide Length, WrapI32;
  }

  // ---------------------------------------------------------------- the run loop, cycles set aside

  function Ready(s: State): State { Full(s).(resetSignal := false) }

  lemma {:induction false} StepIsTurn(env: Env, s: State)
    ensures FreeTurn(env, false, s) == RawStep(env, Ready(s))
  {
    hide Execute, DecodeRaw;
  }

  /** A run of instructions is as many turns of the loop, if all but the last only write registers. */
  lemma {:induction false} StepsAreTurns(env: Env, s: State, w: seq<RawInst>, k: nat)
    requires s.running && 0 < k <= |w| && IsCode(env, s.mem, s.pc, w) && RegisterOps(w, k - 1)
    ensures FreeTurns(env, false, s, k) == RunRaw(env, Ready(s), k)
    decreases k
  {
    hide RunRaw, FreeTurns, FreeTurn, RawStep, IsCode, RegisterRun;
    if k == 1 {
      FreeOne(env, false, s);
      RunRawOne(env, Ready(s));
      StepIsTurn(env, s);
    } else {
      StepsAreTurns(env, s, w, k - 1);
      StraightCode(env, Ready(s), w, k - 1);
      var s1 := RunRaw(env, Ready(s), k - 1).value;
      assert Ready(s1) == s1;
      RunRawMore(env, Ready(s), k - 1, s1);
      FreeSum(env, false, s, k - 1, 1);
      FreeOne(env, false, s1);
      StepIsTurn(env, s1);
    }
  }

  /** How many raw instructions the next turn with fusion stands for. */
  ghost function FusedCount(env: Env, s: State): nat {
    var w := Window(env, s.mem, s.pc, LOOKAHEAD);
    if DecodeRaw(env, s.mem, s.pc).Ok? && |w| > 0 && Fuse(VERSION2, s.pc, w).Some?
    then RawCount(Fuse(VERSION2, s.pc, w).value.body) else 1
  }

  /** One turn of the loop with fusion is between one and five without, and fails as they fail. */
  lemma {:induction false} FusedTurnIsTurns(env: Env, s: State)
    requires s.running && env.version >= VERSION2 && GapFree(env, s)
    ensures 1 <= FusedCount(env, s) <= 5 && FreeTurns(env, false, s, FusedCount(env, s)) == FreeTurn(env, true, s)
  {
    hide Execute, RunRaw, DecodeRaw, Window, Fuse, GapFree, FreeTurns, RegisterOps, IsCode;
    var w := Window(env, s.mem, s.pc, LOOKAHEAD);
    FreeOne(env, false, s);
    if DecodeRaw(env, s.mem, s.pc).Ok? {
      WindowHead(env, s.mem, s.pc, LOOKAHEAD);
      LaterVersionsFuseAlike(env.version, s.pc, w);
      if Fuse(VERSION2, s.pc, w).Some? {
        FusedShape(s.pc, w);
        WindowIsCode(env, s.mem, s.pc, LOOKAHEAD);
        FusedStep(env, Ready(s), w);
        SameGap(env, s, Ready(s));
        StepsAreTurns(env, s, w, FusedCount(env, s));
      }
    }
  }

  lemma {:induction false} SameGap(env: Env, s: State, s': State)
    requires s'.mem == s.mem && s'.pc == s.pc && s'.regs == s.regs
    ensures GapFree(env, s') == GapFree(env, s)
  {
    hide Window, BorrowRight, SbbGuard;
  }

  /** No running state of the first `n` free fused turns is about to execute one of the two bad shapes. */
  ghost predicate FreeOfGaps(env: Env, s: State, n: nat)
    decreases n
  {
    n == 0 || !s.running
    || (GapFree(env, s) && (FreeTurn(env, true, s).Ok? ==> FreeOfGaps(env, FreeTurn(env, true, s).value, n - 1)))
  }

  /** How many turns without fusion the first `n` with it are. */
  ghost function RawTurns(env: Env, s: State, n: nat): nat
    decreases n
  {
    if n == 0 || !s.running then 0
    else FusedCount(env, s) + match FreeTurn(env, true, s) case Ok(s1) => RawTurns(env, s1, n - 1) case Err(_) => 0
  }

  lemma {:induction false} FreeSimulates(env: Env, s: State, n: nat)
    requires env.version >= VERSION2 && FreeOfGaps(env, s, n)
    ensures var k := RawTurns(env, s, n);
            && k <= 5 * n && FreeTurns(env, false, s, k) == FreeTurns(env, true, s, n)
            && (FreeTurns(env, true, s, n).Ok? && FreeTurns(env, true, s, n).value.running ==> k >= n)
    decreases n
  {
    hide FreeTurn, GapFree, FusedCount;
    if n > 0 && s.running {
      FusedTurnIsTurns(env, s);
      var r := FreeTurn(env, true, s);
      if r.Ok? {
        FreeSimulates(env, r.value, n - 1);
        FreeSum(env, false, s, FusedCount(env, s), RawTurns(env, r.value, n - 1));
      }
    }
  }

  /** A free run without fusion that ends or fails ends or fails alike with it. */
  lemma {:induction false} FreeUnfused(env: Env, s: State, n: nat)
    requires env.version >= VERSION2 && FreeOfGaps(env, s, n)
    requires var r := FreeTurns(env, false, s, n); r.Err? || !r.value.running
    ensures FreeTurns(env, true, s, n) == FreeTurns(env, false, s, n)
    ensures FreeTurns(env, false, s, RawTurns(env, s, n)) == FreeTurns(env, false, s, n)
  {
    hide FreeTurn, FreeTurns, FreeOfGaps, RawTurns;
    FreeSimulates(env, s, n);
    var k := RawTurns(env, s, n);
    var raw, fused := FreeTurns(env, false, s, n), FreeTurns(env, true, s, n);
    if k >= n {
      FreeSum(env, false, s, n, k - n);
      if raw.Ok? { FreeStopped(env, false, raw.value, k - n); }
    } else {
      FreeSum(env, false, s, k, n - k);
      if fused.Ok? { FreeStopped(env, false, fused.value, n - k); }
    }
  }

  // ---------------------------------------------------------------- the run loop, whatever instructions cost

  /** No running state of the first `n` turns with fusion is about to execute one of the two bad shapes. */
  ghost predicate GapFreeRun(env: Env, s: State, n: nat)
    decreases n
  {
    n == 0 || !s.running
    || (GapFree(env, s) && (Turn(env, true, s).Ok? ==> GapFreeRun(env, Turn(env, true, s).value, n - 1)))
  }

  lemma {:induction false} GapsSame(env: Env, s: State, t: State, n: nat)
    requires SameButCycles(s, t) && FreeOfGaps(env, s, n)
    ensures FreeOfGaps(env, t, n)
  {
    hide GapFree, Execute, Decode;
    assert Full(s) == Full(t);
    SameGap(env, s, t);
  }

  /** Then none of the free run is, up to where the run that pays runs out of cycles. */
  lemma {:induction false} FreeOfGapsUntil(env: Env, s: State, n: nat) returns (j: nat)
    requires BlindHost(env) && GapFreeRun(env, s, n)
    ensures j <= n && FreeOfGaps(env, s, j) && (j < n ==> OutOfCycles(Turns(env, true, s, j)))
    decreases n
  {
    hide Turn, FreeTurn, GapFree, BlindHost;
    j := n;
    if n > 0 && s.running {
      TurnCutOrFree(env, true, s);
      var r := Turn(env, true, s);
      if OutOfCycles(r) {
        j := 1;
        OneTurn(env, true, s);
        if FreeTurn(env, true, s).Ok? { assert FreeOfGaps(env, FreeTurn(env, true, s).value, 0); }
      } else if r.Ok? {
        var rest := FreeOfGapsUntil(env, r.value, n - 1);
        GapsSame(env, r.value, FreeTurn(env, true, s).value, rest);
        j := rest + 1;
      }
    }
  }

  lemma {:induction false} FreeOfAllGaps(env: Env, s: State, n: nat)
    requires BlindHost(env) && GapFreeRun(env, s, n) && !OutOfCycles(Turns(env, true, s, n))
    ensures FreeOfGaps(env, s, n)
  {
    hide Turns, GapFreeRun, FreeOfGaps, BlindHost;
    var j := FreeOfGapsUntil(env, s, n);
    TurnsSum(env, true, s, j, n - j);
  }

  lemma {:induction false} RawTurnsBound(env: Env, s: State, n: nat)
    ensures RawTurns(env, s, n) <= 5 * n
    decreases n
  {
    hide FreeTurn, Window, Fuse;
    if n > 0 && s.running {
      var w := Window(env, s.mem, s.pc, LOOKAHEAD);
      if |w| > 0 && Fuse(VERSION2, s.pc, w).Some? { FusedShape(s.pc, w); }
      var r := FreeTurn(env, true, s);
      if r.Ok? { RawTurnsBound(env, r.value, n - 1); }
    }
  }

  /**
   Every run with fusion, whether it ends, fails or goes on, is a run without: whatever instructions cost and whatever
   cycles and limit the latter has, they reach the same state (registers, memory, reservation, pc, cycles and limit
   apart) or the same error, unless one of them runs out of cycles.
   */
  lemma {:induction false} FusionSimulates(env: Env, s: State, n: nat, cycles: U64, limit: U64)
    requires BlindHost(env) && env.version >= VERSION2 && GapFreeRun(env, s, n)
    ensures var k := RawTurns(env, s, n);
            var fused, raw := Turns(env, true, s, n), Turns(env, false, Purse(s, cycles, limit), k);
            k <= 5 * n && (OutOfCycles(fused) || OutOfCycles(raw) || SameOutcome(fused, raw))
  {
    hide Turns, FreeTurns, GapFreeRun, FreeOfGaps, RawTurns, BlindHost;
    var k := RawTurns(env, s, n);
    RawTurnsBound(env, s, n);
    if !OutOfCycles(Turns(env, true, s, n)) {
      FreeOfAllGaps(env, s, n);
      FreeSimulates(env, s, n);
      CutOrFree(env, true, s, n);
      CutOrFree(env, false, Purse(s, cycles, limit), k);
      FreeSame(env, false, s, Purse(s, cycles, limit), k);
    }
  }

  /** And the other way round: a run without fusion that ends or fails ends or fails alike with fusion. */
  lemma {:induction false} UnfusedSimulates(env: Env, s: State, n: nat, cycles: U64, limit: U64)
    requires BlindHost(env) && env.version >= VERSION2 && GapFreeRun(env, Purse(s, cycles, limit), n)
    requires var r := Turns(env, false, s, n); !OutOfCycles(r) && (r.Err? || !r.value.running)
    ensures var fused := Turns(env, true, Purse(s, cycles, limit), n);
            OutOfCycles(fused) || SameOutcome(Turns(env, false, s, n), fused)
  {
    hide Turns, FreeTurns, GapFreeRun, FreeOfGaps, BlindHost;
    var t := Purse(s, cycles, limit);
    if !OutOfCycles(Turns(env, true, t, n)) {
      CutOrFree(env, false, s, n);
      FreeOfAllGaps(env, t, n);
      GapsSame(env, t, s, n);
      FreeUnfused(env, s, n);
      CutOrFree(env, true, t, n);
      FreeSame(env, true, s, t, n);
    }
  }

  /**
   With a host that charges, the run without fusion does what the one with fusion did if and only if its limit covers
   what it has to pay; otherwise it runs out of cycles.
   */
  lemma {:induction false} FusionPays(env: Env, s: State, n: nat, cycles: U64, limit: U64)
    requires ChargingHost(env) && env.version >= VERSION2 && GapFreeRun(env, s, n)
    requires s.cycles <= s.maxCycles && !OutOfCycles(Turns(env, true, s, n)) && cycles <= limit
    ensures var k := RawTurns(env, s, n);
            var sum: int, raw := cycles + Due(env, false, s, k), Turns(env, false, Purse(s, cycles, limit), k);
            if sum <= limit then raw == Pursed(Turns(env, true, s, n), sum, limit) else OutOfCycles(raw)
  {
    hide Turns, FreeTurns, GapFreeRun, FreeOfGaps, RawTurns, ChargingHost, BlindHost, Due;
    var k := RawTurns(env, s, n);
    ChargingIsBlind(env);
    FreeOfAllGaps(env, s, n);
    FreeSimulates(env, s, n);
    PaysExactly(env, true, s, n);
    PaysExactly(env, false, Purse(s, cycles, limit), k);
    FreeSame(env, false, s, Purse(s, cycles, limit), k);
    DueSame(env, false, s, Purse(s, cycles, limit), k);
  }

  /** So raising the limit is enough, unless the sum no longer fits a register. */
  lemma {:induction false} EnoughCycles(env: Env, s: State, n: nat) returns (limit: U64)
    requires ChargingHost(env) && env.version >= VERSION2 && GapFreeRun(env, s, n)
    requires s.cycles <= s.maxCycles && !OutOfCycles(Turns(env, true, s, n))
    requires s.cycles + Due(env, false, s, RawTurns(env, s, n)) < TWO64
    ensures SameOutcome(Turns(env, true, s, n), Turns(env, false, s.(maxCycles := limit), RawTurns(env, s, n)))
  {
    hide Turns, GapFreeRun, RawTurns, ChargingHost, Due;
    limit := s.cycles + Due(env, false, s, RawTurns(env, s, n));
    FusionPays(env, s, n, s.cycles, limit);
    assert Purse(s, s.cycles, limit) == s.(maxCycles := limit);
  }
}
