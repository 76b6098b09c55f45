/**
 The machine as it runs: handlers write the registers one after another in an array, so that later reads see earlier
 writes, and go to the protected memory (src/instructions/execute.rs, src/instructions/utils.rs, src/machine/mod.rs).
 */
module Handlers {
  import opened Words
  import opened PagedMemory
  import opened WXorX
  import opened Instructions
  import opened Machine
  import opened FusionProof
  import opened Arithmetic
  import opened Division

  /** The same error, except that a failed load may name the page instead of the byte. */
  predicate LikeError(e: Error, f: Error) { e == f || (e.OutOfBound? && f.OutOfBound?) }

  /** The outcome of a method that works in place, against what it should come to. */
  ghost predicate Reaches(s: State, error: Option<Error>, r: Result<State>) {
    match r
    case Ok(s1) => error.None? && s == s1
    case Err(e) => error.Some? && LikeError(error.value, e)
  }

  /** Host code leaves the number of pages alone. */
  ghost predicate HostKeepsSize(env: Env) {
    && (forall s :: env.syscall(s).Ok? ==> |env.syscall(s).value.mem.flags| == |s.mem.flags|)
    && (forall s :: env.debugger(s).Ok? ==> |env.debugger(s).value.mem.flags| == |s.mem.flags|)
  }

  // ---------------------------------------------------------------- what the fused instructions compute

  /** Both results of an instruction with two: a product, a division, a sum or a difference, complete. */
  ghost predicate Complete(op: R4Op, a: U64, b: U64, first: U64, second: U64) {
    match op
    case WIDE_MUL => Signed(first) * TWO64 + second == Signed(a) * Signed(b)
    case WIDE_MULU => first * TWO64 + second == a * b
    case WIDE_MULSU => Signed(first) * TWO64 + second == Signed(a) * b
    case WIDE_DIV => Wrap(b * first + second) == a
    case WIDE_DIVU => Wrap(b * first + second) == a
    case ADCS => second <= 1 && first + TWO64 * second == a as int + b as int
    case SBBS => second <= 1 && first - TWO64 * second == a as int - b as int
    case SBB => true
  }

  lemma {:induction false} R4Complete(op: R4Op, regs: Registers, rd: Reg, rs1: Reg, rs2: Reg, rs3: Reg)
    requires op != SBB && rd != rs3 && rd != ZERO && rs3 != ZERO
    ensures var r := R4Effect(op, regs, rd, rs1, rs2, rs3); Complete(op, regs[rs1], regs[rs2], r[rd], r[rs3])
  {
    hide Mul, MulHighSigned, MulHighUnsigned, MulHighSignedUnsigned, DivSigned, DivUnsigned, RemSigned, RemUnsigned, Signed, Wrap;
    WholeProduct(regs[rs1], regs[rs2]);
    DivisionLaw(regs[rs1], regs[rs2]);
  }

  function Sum(a: U64, b: U64): int { a as int + b as int }

  /** A sum in two words, and its carry added to a third. */
  lemma {:induction false} SumAndCarry(a: U64, b: U64, c: U64)
    ensures Add(a, b) == Wrap(Sum(a, b)) && Lt(Add(a, b), a) == Lt(Add(a, b), b) == Sum(a, b) / TWO64
    ensures Add(Lt(Add(a, b), b), c) == Wrap(c + Sum(a, b) / TWO64)
  {
    if a + b < TWO64 { WrapUnique(a + b, 0, a + b); } else { WrapUnique(a + b, 1, a + b - TWO64); }
    var carry := Lt(Add(a, b), b);
    if c + carry < TWO64 { WrapUnique(c + carry, 0, c + carry); } else { WrapUnique(c + carry, 1, c + carry - TWO64); }
  }

  /** A sum whose carry goes into a third register. */
  lemma {:induction false} R5CarriesOver(op: R5Op, regs: Registers, rd: Reg, rs1: Reg, rs2: Reg, rs3: Reg, rs4: Reg)
    requires Add3Operands(op, rd, rs1, rs2, rs4) && rd != rs3 && rs3 != ZERO && (op == ADD3A ==> rd != rs2)
    ensures var r := R5Effect(op, regs, rd, rs1, rs2, rs3, rs4);
            var sum := if op == ADD3A then Sum(regs[rd], regs[rs1]) else Sum(regs[rs1], regs[rs2]);
            r[rd] == Wrap(sum) && r[rs3] == Wrap(regs[rs4] + sum / TWO64)
  {
    hide Add, Lt, Sum, Wrap;
    var a, b := if op == ADD3A then regs[rd] else regs[rs1], if op == ADD3A then regs[rs1] else regs[rs2];
    SumAndCarry(a, b, regs[rs4]);
  }

  class CoreMachine {
    const registers: array<U64>
    const memory: WXorXMemory
    var pc: U64
    var nextPc: U64
    var cycles: U64
    var maxCycles: U64
    var running: bool
    var resetSignal: bool
    var exitCode: int

    ghost predicate Valid()
      reads memory.inner.Repr()
    {
      registers.Length == 32 && memory.Valid() && registers !in memory.inner.Repr()
    }

    ghost function Repr(): set<object> { {this, registers} + memory.inner.Repr() }

    ghost function Regs(): Registers
      requires registers.Length == 32
      reads registers
    {
      registers[..]
    }

    ghost function Abs(): State
      requires Valid()
      reads this, registers, memory.inner.Repr()
    {
      State(Regs(), pc, nextPc, memory.Memory(), cycles, maxCycles, running, resetSignal, exitCode)
    }

    /** A machine whose registers are zero and whose memory is given. */
    constructor (memory: WXorXMemory, maxCycles: U64)
      requires memory.Valid()
      ensures Valid() && fresh(registers) && this.memory == memory
      ensures Abs() == State(seq(32, i => 0), 0, 0, memory.Memory(), 0, maxCycles, false, false, 0)
    {
      registers := new U64[32](i => 0);
      this.memory, this.maxCycles := memory, maxCycles;
      pc, nextPc, cycles, running, resetSignal, exitCode := 0, 0, 0, false, false, 0;
    }

    /** Writes to x0 are ignored. */
    method UpdateRegister(r: Reg, value: U64)
      requires Valid()
      modifies registers
      ensures Valid() && Regs() == Set(old(Regs()), r, value)
    {
      if r > 0 {
        registers[r] := value;
      }
      assert registers[..] == Set(old(registers[..]), r, value);
    }

    // ---------------------------------------------------------------- fused register instructions

    method HandleAdc(rd: Reg, rs1: Reg, rs2: Reg)
      requires Valid()
      modifies registers
      ensures Valid() && Regs() == AdcEffect(old(Regs()), rd, rs1, rs2)
      ensures rd != rs1 && rd != rs2 && rs1 != rs2 && rd != ZERO && rs1 != ZERO && rs2 != ZERO && old(registers[rs2]) <= 1 ==>
                registers[rd] as int + TWO64 * registers[rs1] == old(registers[rd] as int + registers[rs1] as int + registers[rs2] as int)
    {
      hide Set, Or, Lt, Add;
      ghost var regs := Regs();
      UpdateRegister(rd, Add(registers[rd], registers[rs1]));
      UpdateRegister(rs1, Lt(registers[rd], registers[rs1]));
      UpdateRegister(rd, Add(registers[rd], registers[rs2]));
      UpdateRegister(rs2, Lt(registers[rd], registers[rs2]));
      UpdateRegister(rs1, Or(registers[rs1], registers[rs2]));
      if rd != rs1 && rd != rs2 && rs1 != rs2 && rd != ZERO && rs1 != ZERO && rs2 != ZERO && regs[rs2] <= 1 {
        AdcAdds(regs, rd, rs1, rs2);
      }
    }

    method HandleSbb(rd: Reg, rs1: Reg, rs2: Reg, rs3: Reg)
      requires Valid()
      modifies registers
      ensures Valid() && Regs() == SbbEffect(old(Regs()), rd, rs1, rs2, rs3)
      ensures SbbOperands(rd, rs1, rs2, rs3) && old(registers[rs2]) <= 1 ==>
                registers[rd] as int - TWO64 * registers[rs1] == old(registers[rd] as int - registers[rs1] as int - registers[rs2] as int)
    {
      hide Set, Or, Lt, Sub;
      ghost var regs := Regs();
      UpdateRegister(rs1, Sub(registers[rd], registers[rs1]));
      UpdateRegister(rs3, Lt(registers[rd], registers[rs1]));
      UpdateRegister(rd, Sub(registers[rs1], registers[rs2]));
      UpdateRegister(rs2, Lt(registers[rs1], registers[rd]));
      UpdateRegister(rs1, Or(registers[rs2], registers[rs3]));
      if SbbOperands(rd, rs1, rs2, rs3) && regs[rs2] <= 1 { SbbSubtracts(regs, rd, rs1, rs2, rs3); }
    }

    /** The instructions with two results: both are computed before either is written. */
    method HandleR4(op: R4Op, rd: Reg, rs1: Reg, rs2: Reg, rs3: Reg)
      requires Valid()
      modifies registers
      ensures Valid() && Regs() == R4Effect(op, old(Regs()), rd, rs1, rs2, rs3)
      ensures op != SBB && rd != rs3 && rd != ZERO && rs3 != ZERO ==>
                Complete(op, old(registers[rs1]), old(registers[rs2]), registers[rd], registers[rs3])
    {
      hide Set, Lt, Add, Sub, Mul, MulHighSigned, MulHighUnsigned, MulHighSignedUnsigned, DivSigned, DivUnsigned, RemSigned, RemUnsigned,
        SbbEffect, Complete;
      ghost var regs := Regs();
      if op == SBB {
        HandleSbb(rd, rs1, rs2, rs3);
        return;
      }
      var a, b := registers[rs1], registers[rs2];
      var first := match op
        case WIDE_MUL => MulHighSigned(a, b) case WIDE_MULU => MulHighUnsigned(a, b)
        case WIDE_MULSU => MulHighSignedUnsigned(a, b) case WIDE_DIV => DivSigned(a, b)
        case WIDE_DIVU => DivUnsigned(a, b) case ADCS => Add(a, b) case _ => Sub(a, b);
      var second := match op
        case WIDE_DIV => RemSigned(a, b) case WIDE_DIVU => RemUnsigned(a, b)
        case ADCS => Lt(first, a) case SBBS => Lt(a, b) case _ => Mul(a, b);
      UpdateRegister(rd, first);
      UpdateRegister(rs3, second);
      if rd != rs3 && rd != ZERO && rs3 != ZERO { R4Complete(op, regs, rd, rs1, rs2, rs3); }
    }

    method HandleR5(op: R5Op, rd: Reg, rs1: Reg, rs2: Reg, rs3: Reg, rs4: Reg)
      requires Valid()
      modifies registers
      ensures Valid() && Regs() == R5Effect(op, old(Regs()), rd, rs1, rs2, rs3, rs4)
      ensures Add3Operands(op, rd, rs1, rs2, rs4) && rd != rs3 && rs3 != ZERO && (op == ADD3A ==> rd != rs2) ==>
                var sum := old(if op == ADD3A then Sum(registers[rd], registers[rs1]) else Sum(registers[rs1], registers[rs2]));
                registers[rd] == Wrap(sum) && registers[rs3] == Wrap(old(registers[rs4]) + sum / TWO64)
    {
      hide Set, Lt, Add, Wrap, Sum;
      ghost var regs := Regs();
      match op {
        case ADD3A =>
          UpdateRegister(rd, Add(registers[rd], registers[rs1]));
          UpdateRegister(rs2, Lt(registers[rd], registers[rs1]));
          UpdateRegister(rs3, Add(registers[rs2], registers[rs4]));
        case ADD3B =>
          UpdateRegister(rd, Add(registers[rs1], registers[rs2]));
          UpdateRegister(rs1, Lt(registers[rd], registers[rs1]));
          UpdateRegister(rs3, Add(registers[rs1], registers[rs4]));
        case ADD3C =>
          UpdateRegister(rd, Add(registers[rs1], registers[rs2]));
          UpdateRegister(rs3, Add(Lt(registers[rd], registers[rs1]), registers[rs4]));
      }
      if Add3Operands(op, rd, rs1, rs2, rs4) && rd != rs3 && rs3 != ZERO && (op == ADD3A ==> rd != rs2) {
        R5CarriesOver(op, regs, rd, rs1, rs2, rs3, rs4);
      }
    }

    method HandleRegisterOp(env: Env, b: Body)
      requires Valid() && IsRegisterOp(b)
      modifies registers
      ensures Valid() && Regs() == RegisterEffect(env, b, old(Regs()), pc)
    {
      hide Set, AdcEffect, R4Effect, R5Effect, Compute;
      match b {
        case R(op, rd, rs1, rs2) =>
          if op == ADC {
            HandleAdc(rd, rs1, rs2);
          } else {
            UpdateRegister(rd, Compute(op, registers[rs1], registers[rs2]));
          }
        case R4(op, rd, rs1, rs2, rs3) => HandleR4(op, rd, rs1, rs2, rs3);
        case R5(op, rd, rs1, rs2, rs3, rs4) => HandleR5(op, rd, rs1, rs2, rs3, rs4);
        case I(op, rd, rs1, imm) =>
          var sum := Add(registers[rs1], FromI32(imm));
          UpdateRegister(rd, if op == ADDIW then SignExtend32(sum) else sum);
        case U(op, rd, imm) => UpdateRegister(rd, if op == AUIPC then Add(pc, FromI32(imm)) else FromI32(imm));
        case Alu(code, rd, rs1, rs2, imm) => UpdateRegister(rd, env.alu(code, pc, registers[rs1], registers[rs2], imm));
      }
    }

    // ---------------------------------------------------------------- memory instructions

    method LoadFrom(addr: U64, w: Width) returns (r: Result<U64>)
      requires Valid()
      modifies memory.inner.Repr()
      ensures Valid() && Abs() == old(Abs())
      ensures match LoadWord(memory.Memory(), addr, w) case Ok(v) => r == Ok(v) case Err(e) => r.Err? && LikeError(r.error, e)
    {
      hide memory.Memory, memory.Valid;
      ghost var m := memory.Memory();
      var value := memory.Load(addr, w.Bytes());
      if value.Err? {
        return Err(value.error);
      }
      LoadIsWord(m, addr, w);
      return Ok(value.value);
    }

    method StoreTo(addr: U64, w: Width, value: U64) returns (error: Option<Error>)
      requires Valid()
      modifies memory.inner.Repr()
      ensures Valid() && Reaches(Abs(), error, WithStore(old(Abs()), addr, w, value))
      ensures error.Some? ==> Abs() == old(Abs())
    {
      StoreFails(memory.Memory(), addr, ToLittleEndian(value, w.Bytes()));
      hide memory.Memory, memory.Valid, PagedMemory.StoreBytes;
      error := memory.StoreBytes(addr, ToLittleEndian(value, w.Bytes()));
    }

    static lemma {:induction false} StoreFails(m: Memory, addr: U64, data: seq<Byte>)
      requires |data| < TWO64
      ensures PagedMemory.StoreBytes(m, addr, data).error.Some? ==> PagedMemory.StoreBytes(m, addr, data).mem == m
    {
    }

    method HandleLr(w: Width, rd: Reg, addr: U64) returns (error: Option<Error>)
      requires Valid()
      modifies registers, memory.inner.Repr()
      ensures Valid() && Reaches(Abs(), error, Machine.HandleLr(old(Abs()), w, rd, addr))
      ensures error.Some? ==> Abs() == old(Abs())
    {
      hide Set, LoadWord, memory.Memory, memory.Valid;
      var value := LoadFrom(addr, w);
      if value.Err? {
        return Some(value.error);
      }
      UpdateRegister(rd, SignExtendWidth(w, value.value));
      memory.SetLr(addr);
      return None;
    }

    /** The store happens whether or not the reservation holds. */
    method HandleSc(w: Width, rd: Reg, addr: U64, value: U64) returns (error: Option<Error>)
      requires Valid()
      modifies registers, memory.inner.Repr()
      ensures Valid() && Reaches(Abs(), error, Machine.HandleSc(old(Abs()), w, rd, addr, value))
      ensures error.Some? ==> Abs() == old(Abs())
    {
      hide Set, LoadWord, WithStore, memory.Memory, memory.Valid;
      var lr := memory.Lr();
      var condition := addr == lr;
      var loaded := LoadFrom(addr, w);
      if loaded.Err? {
        return Some(loaded.error);
      }
      error := StoreTo(addr, w, if condition then value else loaded.value);
      if error.Some? {
        return;
      }
      UpdateRegister(rd, if condition then 0 else 1);
      memory.SetLr(U64_MAX);
    }

    method HandleAmo(env: Env, k: AmoKind, double: bool, rd: Reg, addr: U64, value: U64) returns (error: Option<Error>)
      requires Valid()
      modifies registers, memory.inner.Repr()
      ensures Valid() && Reaches(Abs(), error, Machine.HandleAmo(env, old(Abs()), k, double, rd, addr, value))
      ensures error.Some? ==> Abs() == AmoRegister(old(Abs()), double, rd, addr)
    {
      hide Set, LoadWord, WithStore, memory.Memory, memory.Valid;
      var w := if double then W64 else W32;
      var loaded := LoadFrom(addr, w);
      if loaded.Err? {
        return Some(loaded.error);
      }
      UpdateRegister(rd, SignExtendWidth(w, loaded.value));
      error := StoreTo(addr, w, env.amo(k, double, loaded.value, value));
    }

    // ---------------------------------------------------------------- dispatch

    /** Takes over what host code made of the machine. */
    method Become(s: State)
      requires Valid() && |s.mem.flags| == |memory.Memory().flags|
      modifies Repr()
      ensures Valid() && Abs() == s
    {
      hide memory.Memory, memory.Valid;
      memory.Overwrite(s.mem);
      forall r | 0 <= r < 32 { registers[r] := s.regs[r]; }
      assert registers[..] == s.regs;
      pc, nextPc, cycles, maxCycles := s.pc, s.nextPc, s.cycles, s.maxCycles;
      running, resetSignal, exitCode := s.running, s.resetSignal, s.exitCode;
    }

    method Observe() returns (s: State)
      requires Valid()
      modifies memory.inner.Repr()
      ensures Valid() && Abs() == old(Abs()) && s == Abs()
    {
      hide memory.Memory, memory.Valid;
      var m := memory.Contents();
      s := State(registers[..], pc, nextPc, m, cycles, maxCycles, running, resetSignal, exitCode);
    }

    method HandleHost(env: Env, b: Body) returns (error: Option<Error>)
      requires Valid() && HostKeepsSize(env) && (b.Ecall? || b.Ebreak?)
      modifies Repr()
      ensures Valid() && Reaches(Abs(), error, if b.Ecall? then HandleEcall(env, old(Abs())) else env.debugger(old(Abs())))
      ensures error.Some? ==> var left := HandlerLeft(env, b, old(Abs())); left.Some? ==> Abs() == left.value
    {
      hide memory.Memory, memory.Valid;
      if b.Ecall? && registers[A7] == 93 {
        var code: int := registers[A0] % 0x100;
        running, exitCode := false, if code < 0x80 then code else code - 0x100;
        return None;
      }
      var s := Observe();
      var r := if b.Ecall? then env.syscall(s) else env.debugger(s);
      if r.Err? {
        return Some(r.error);
      }
      Become(r.value);
      return if b.Ecall? && cycles > maxCycles then Some(CyclesExceeded) else None;
    }

    /** The link register is written before the jump is taken; the target was read before. */
    method Jump(rd: Reg, len: Len, target: U64)
      requires Valid()
      modifies this`nextPc, registers
      ensures Valid() && Ok(Abs()) == HandleJump(old(Abs()), rd, len, target)
    {
      hide Set, memory.Memory, memory.Valid;
      UpdateRegister(rd, Add(pc, len));
      nextPc := target;
    }

    method HandleControl(i: Inst)
      requires Valid() && (i.body.Branch? || (i.body.I? && i.body.iop == JALR)
                           || (i.body.U? && (i.body.uop == JAL || i.body.uop == FAR_JUMP_REL || i.body.uop == FAR_JUMP_ABS)))
      modifies this`nextPc, registers
      ensures Valid() && forall env :: Handle(env, i, old(Abs())) == Ok(Abs())
    {
      hide Set, RegisterEffect, BranchTaken, memory.Memory, memory.Valid;
      match i.body {
        case I(_, rd, rs1, imm) => Jump(rd, i.len, ClearBit0(Add(registers[rs1], FromI32(imm))));
        case U(op, rd, imm) =>
          match op {
            case JAL => Jump(rd, i.len, Add(pc, FromI32(imm)));
            case FAR_JUMP_REL => Jump(RA, i.len, ClearBit0(Add(pc, FromI32(imm))));
            case FAR_JUMP_ABS => Jump(RA, i.len, ClearBit0(FromI32(imm)));
          }
        case Branch(op, rs1, rs2, imm) =>
          nextPc := if BranchTaken(op, registers[rs1], registers[rs2]) then Add(FromI32(imm), pc) else Add(i.len, pc);
      }
    }

    method HandleMemory(env: Env, i: Inst) returns (error: Option<Error>)
      requires Valid() && (i.body.Load? || i.body.Store? || i.body.Atomic?)
      modifies registers, memory.inner.Repr()
      ensures Valid() && Reaches(Abs(), error, Handle(env, i, old(Abs())))
      ensures error.Some? ==> HandlerLeft(env, i.body, old(Abs())) == Some(Abs())
    {
      hide Set, LoadWord, WithStore, Machine.HandleSc, Machine.HandleAmo, Machine.HandleLr, AmoRegister, RegisterEffect, memory.Memory, memory.Valid;
      match i.body {
        case Load(w, signed, rd, rs1, imm) =>
          var value := LoadFrom(Add(registers[rs1], FromI32(imm)), w);
          if value.Err? {
            return Some(value.error);
          }
          UpdateRegister(rd, if signed then SignExtendWidth(w, value.value) else value.value);
          return None;
        case Store(w, rs1, rs2, imm) =>
          error := StoreTo(Add(registers[rs1], FromI32(imm)), w, registers[rs2]);
        case Atomic(op, double, rd, rs1, rs2) =>
          var w := if double then W64 else W32;
          match op {
            case LR => error := HandleLr(w, rd, registers[rs1]);
            case SC => error := HandleSc(w, rd, registers[rs1], registers[rs2]);
            case AMO(k) => error := HandleAmo(env, k, double, rd, registers[rs1], registers[rs2]);
          }
      }
    }

    method Dispatch(env: Env, i: Inst) returns (error: Option<Error>)
      requires Valid() && HostKeepsSize(env)
      modifies Repr()
      ensures Valid() && Reaches(Abs(), error, Handle(env, i, old(Abs())))
      ensures error.Some? ==> var left := HandlerLeft(env, i.body, old(Abs())); left.Some? ==> Abs() == left.value
    {
      hide memory.Memory, memory.Valid, Handle, RegisterEffect, HandleEcall, HandlerLeft, HostKeepsSize;
      HandleSimply(env, i, Abs());
      var b := i.body;
      if IsRegisterOp(b) {
        HandleRegisterOp(env, b);
        return None;
      }
      if b.Load? || b.Store? || b.Atomic? {
        error := HandleMemory(env, i);
      } else if b.Ecall? || b.Ebreak? {
        error := HandleHost(env, b);
      } else if b.Fence? {
        return None;
      } else {
        HandleControl(i);
        return None;
      }
    }

    static lemma {:induction false} HandleSimply(env: Env, i: Inst, s: State)
      ensures IsRegisterOp(i.body) ==> Handle(env, i, s) == Ok(s.(regs := RegisterEffect(env, i.body, s.regs, s.pc)))
      ensures i.body.Ecall? ==> Handle(env, i, s) == HandleEcall(env, s)
      ensures i.body.Ebreak? ==> Handle(env, i, s) == env.debugger(s)
      ensures i.body.Fence? ==> Handle(env, i, s) == Ok(s)
    {
      hide RegisterEffect, HandleEcall;
    }

    /** `execute`: the next pc is set, the handler runs, and the pc is committed even if it failed. */
    method Execute(env: Env, i: Inst) returns (error: Option<Error>)
      requires Valid() && HostKeepsSize(env)
      modifies Repr()
      ensures Valid() && Reaches(Abs(), error, Machine.Execute(env, i, old(Abs())))
      ensures error.Some? ==> var left := LeftBehind(env, i, old(Abs())); left.Some? ==> Abs() == left.value
    {
      hide Handle, HandlerLeft, memory.Memory, memory.Valid, HostKeepsSize;
      nextPc := Add(pc, i.len);
      error := Dispatch(env, i);
      pc := nextPc;
    }
  }
}
