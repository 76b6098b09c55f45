/**
 One machine step: fetch, decode, execute (src/decoder.rs, src/instructions/execute.rs,
 src/instructions/common.rs, src/machine/mod.rs), at version 2 with 64-bit registers.
 */
module Machine {
  import opened Words
  import opened PagedMemory
  import opened Instructions

  type Registers = s: seq<U64> | |s| == 32 witness seq(32, i => 0)

  datatype State = State(
    regs: Registers,
    pc: U64,
    nextPc: U64,
    mem: Memory,
    cycles: U64,
    maxCycles: U64,
    running: bool,
    resetSignal: bool,
    exitCode: int)

  /**
   What the machine is configured with. The instruction factories, the remaining register
   instructions, system calls, the debugger and the cost function are arbitrary functions.
   */
  datatype Env = Env(
    version: nat,
    factories: seq<U32 -> Option<RawInst>>,
    alu: (AluCode, U64, U64, U64, I32) -> U64,
    amo: (AmoKind, bool, U64, U64) -> U64,
    syscall: State -> Result<State>,
    debugger: State -> Result<State>,
    cost: Inst -> U64)

  // ---------------------------------------------------------------- registers

  /** `update_register`: writes to x0 are ignored. */
  function Set(regs: Registers, r: Reg, v: U64): Registers {
    if r > 0 then regs[r := v] else regs
  }

  function Compute(op: ROp, a: U64, b: U64): U64
    requires op != ADC
  {
    match op
    case ADD => Add(a, b)
    case SUB => Sub(a, b)
    case SLTU => Lt(a, b)
    case OR => Or(a, b)
    case MUL => Mul(a, b)
    case MULH => MulHighSigned(a, b)
    case MULHU => MulHighUnsigned(a, b)
    case MULHSU => MulHighSignedUnsigned(a, b)
    case DIV => DivSigned(a, b)
    case DIVU => DivUnsigned(a, b)
    case REM => RemSigned(a, b)
    case REMU => RemUnsigned(a, b)
  }

  /** A plain register instruction. */
  function Apply2(op: ROp, regs: Registers, rd: Reg, rs1: Reg, rs2: Reg): Registers
    requires op != ADC
  {
    Set(regs, rd, Compute(op, regs[rs1], regs[rs2]))
  }

  // The fused handlers: register writes happen one after the other, and later reads see them.

  function AdcEffect(regs: Registers, rd: Reg, rs1: Reg, rs2: Reg): Registers {
    var r1 := Set(regs, rd, Add(regs[rd], regs[rs1]));
    var r2 := Set(r1, rs1, Lt(r1[rd], r1[rs1]));
    var r3 := Set(r2, rd, Add(r2[rd], r2[rs2]));
    var r4 := Set(r3, rs2, Lt(r3[rd], r3[rs2]));
    Set(r4, rs1, Or(r4[rs1], r4[rs2]))
  }

  function SbbEffect(regs: Registers, rd: Reg, rs1: Reg, rs2: Reg, rs3: Reg): Registers {
    var r1 := Set(regs, rs1, Sub(regs[rd], regs[rs1]));
    var r2 := Set(r1, rs3, Lt(r1[rd], r1[rs1]));
    var r3 := Set(r2, rd, Sub(r2[rs1], r2[rs2]));
    var r4 := Set(r3, rs2, Lt(r3[rs1], r3[rd]));
    Set(r4, rs1, Or(r4[rs2], r4[rs3]))
  }

  function R4Effect(op: R4Op, regs: Registers, rd: Reg, rs1: Reg, rs2: Reg, rs3: Reg): Registers {
    var a, b := regs[rs1], regs[rs2];
    match op
    case WIDE_MUL => Set(Set(regs, rd, MulHighSigned(a, b)), rs3, Mul(a, b))
    case WIDE_MULU => Set(Set(regs, rd, MulHighUnsigned(a, b)), rs3, Mul(a, b))
    case WIDE_MULSU => Set(Set(regs, rd, MulHighSignedUnsigned(a, b)), rs3, Mul(a, b))
    case WIDE_DIV => Set(Set(regs, rd, DivSigned(a, b)), rs3, RemSigned(a, b))
    case WIDE_DIVU => Set(Set(regs, rd, DivUnsigned(a, b)), rs3, RemUnsigned(a, b))
    case SBB => SbbEffect(regs, rd, rs1, rs2, rs3)
    case ADCS => Set(Set(regs, rd, Add(a, b)), rs3, Lt(Add(a, b), a))
    case SBBS => Set(Set(regs, rd, Sub(a, b)), rs3, Lt(a, b))
  }

  function R5Effect(op: R5Op, regs: Registers, rd: Reg, rs1: Reg, rs2: Reg, rs3: Reg, rs4: Reg): Registers {
    match op
    case ADD3A =>
      var r1 := Set(regs, rd, Add(regs[rd], regs[rs1]));
      var r2 := Set(r1, rs2, Lt(r1[rd], r1[rs1]));
      Set(r2, rs3, Add(r2[rs2], r2[rs4]))
    case ADD3B =>
      var r1 := Set(regs, rd, Add(regs[rs1], regs[rs2]));
      var r2 := Set(r1, rs1, Lt(r1[rd], r1[rs1]));
      Set(r2, rs3, Add(r2[rs1], r2[rs4]))
    case ADD3C =>
      var r1 := Set(regs, rd, Add(regs[rs1], regs[rs2]));
      Set(r1, rs3, Add(Lt(r1[rd], r1[rs1]), r1[rs4]))
  }

  /** Instructions that only write registers and fall through. */
  predicate IsRegisterOp(b: Body) {
    b.R? || b.R4? || b.R5? || b.Alu? || (b.I? && b.iop != JALR)
    || (b.U? && (b.uop == LUI || b.uop == AUIPC || b.uop == LOAD_IMM))
  }

  function RegisterEffect(env: Env, b: Body, regs: Registers, pc: U64): Registers
    requires IsRegisterOp(b)
  {
    match b
    case R(op, rd, rs1, rs2) => if op == ADC then AdcEffect(regs, rd, rs1, rs2) else Apply2(op, regs, rd, rs1, rs2)
    case R4(op, rd, rs1, rs2, rs3) => R4Effect(op, regs, rd, rs1, rs2, rs3)
    case R5(op, rd, rs1, rs2, rs3, rs4) => R5Effect(op, regs, rd, rs1, rs2, rs3, rs4)
    case I(op, rd, rs1, imm) =>
      var sum := Add(regs[rs1], FromI32(imm));
      Set(regs, rd, if op == ADDIW then SignExtend32(sum) else sum)
    case U(op, rd, imm) => Set(regs, rd, if op == AUIPC then Add(pc, FromI32(imm)) else FromI32(imm))
    case Alu(code, rd, rs1, rs2, imm) => Set(regs, rd, env.alu(code, pc, regs[rs1], regs[rs2], imm))
  }

  // ---------------------------------------------------------------- the other instructions

  function BranchTaken(op: BOp, a: U64, b: U64): bool {
    match op
    case BEQ => a == b
    case BNE => a != b
    case BLT => Signed(a) < Signed(b)
    case BGE => Signed(a) >= Signed(b)
    case BLTU => a < b
    case BGEU => a >= b
  }

  function SignExtendWidth(w: Width, v: U64): U64 {
    match w
    case W8 => var low := v % 0x100; if low < 0x80 then low else low + (TWO64 - 0x100)
    case W16 => var low := v % 0x10000; if low < 0x8000 then low else low + (TWO64 - 0x10000)
    case W32 => SignExtend32(v)
    case W64 => v
  }

  lemma {:induction false} LoadIsWord(m: Memory, addr: U64, w: Width)
    requires PagedMemory.Load(m, addr, w.Bytes()).Ok?
    ensures PagedMemory.Load(m, addr, w.Bytes()).value < TWO64
  {
    LittleEndianBound(Slice(m.bytes, addr, w.Bytes()));
    assert Pow256(8) == TWO64 && Pow256(4) < TWO64 && Pow256(2) < TWO64 && Pow256(1) < TWO64;
  }

  function LoadWord(m: Memory, addr: U64, w: Width): Result<U64> {
    match PagedMemory.Load(m, addr, w.Bytes())
    case Ok(v) => LoadIsWord(m, addr, w); Ok(v)
    case Err(e) => Err(e)
  }

  function WithStore(s: State, addr: U64, w: Width, v: U64): Result<State> {
    var o := PagedMemory.Store(s.mem, addr, w.Bytes(), v);
    if o.error.Some? then Err(o.error.value) else Ok(s.(mem := o.mem))
  }

  function HandleLr(s: State, w: Width, rd: Reg, addr: U64): Result<State> {
    match LoadWord(s.mem, addr, w)
    case Err(e) => Err(e)
    case Ok(v) => Ok(s.(regs := Set(s.regs, rd, SignExtendWidth(w, v)), mem := s.mem.(lr := addr)))
  }

  /** A failed store-conditional stores the loaded value back. */
  function HandleSc(s: State, w: Width, rd: Reg, addr: U64, value: U64): Result<State> {
    var condition := addr == s.mem.lr;
    match LoadWord(s.mem, addr, w)
    case Err(e) => Err(e)
    case Ok(loaded) =>
      match WithStore(s, addr, w, if condition then value else loaded)
      case Err(e) => Err(e)
      case Ok(s1) =>
        Ok(s1.(regs := Set(s1.regs, rd, if condition then 0 else 1), mem := s1.mem.(lr := U64_MAX)))
  }

  function HandleAmo(env: Env, s: State, k: AmoKind, double: bool, rd: Reg, addr: U64, value: U64): Result<State> {
    var w := if double then W64 else W32;
    match LoadWord(s.mem, addr, w)
    case Err(e) => Err(e)
    case Ok(loaded) =>
      WithStore(s.(regs := Set(s.regs, rd, SignExtendWidth(w, loaded))), addr, w, env.amo(k, double, loaded, value))
  }

  /** ECALL: 93 exits, everything else goes to the registered system calls. */
  function HandleEcall(env: Env, s: State): Result<State> {
    if s.regs[A7] == 93 then
      var code: int := s.regs[A0] % 0x100;
      Ok(s.(running := false, exitCode := if code < 0x80 then code else code - 0x100))
    else
      match env.syscall(s)
      case Err(e) => Err(e)
      case Ok(s1) => if s1.cycles > s1.maxCycles then Err(CyclesExceeded) else Ok(s1)
  }

  function HandleJump(s: State, rd: Reg, len: Len, target: U64): Result<State> {
    Ok(s.(regs := Set(s.regs, rd, Add(s.pc, len)), nextPc := target))
  }

  function Handle(env: Env, i: Inst, s: State): Result<State>
  {
    var b := i.body;
    if IsRegisterOp(b) then Ok(s.(regs := RegisterEffect(env, b, s.regs, s.pc)))
    else match b
      case I(_, rd, rs1, imm) => HandleJump(s, rd, i.len, ClearBit0(Add(s.regs[rs1], FromI32(imm))))
      case U(op, rd, imm) => (match op
        case JAL => HandleJump(s, rd, i.len, Add(s.pc, FromI32(imm)))
        case FAR_JUMP_REL => HandleJump(s, RA, i.len, ClearBit0(Add(s.pc, FromI32(imm))))
        case _ => HandleJump(s, RA, i.len, ClearBit0(FromI32(imm))))
      case Load(w, signed, rd, rs1, imm) => (
        match LoadWord(s.mem, Add(s.regs[rs1], FromI32(imm)), w)
        case Err(e) => Err(e)
        case Ok(v) => Ok(s.(regs := Set(s.regs, rd, if signed then SignExtendWidth(w, v) else v))))
      case Store(w, rs1, rs2, imm) => WithStore(s, Add(s.regs[rs1], FromI32(imm)), w, s.regs[rs2])
      case Atomic(op, double, rd, rs1, rs2) => (
        var w := if double then W64 else W32;
        match op
        case LR => HandleLr(s, w, rd, s.regs[rs1])
        case SC => HandleSc(s, w, rd, s.regs[rs1], s.regs[rs2])
        case AMO(k) => HandleAmo(env, s, k, double, rd, s.regs[rs1], s.regs[rs2]))
      case Branch(op, rs1, rs2, imm) =>
        Ok(s.(nextPc := if BranchTaken(op, s.regs[rs1], s.regs[rs2]) then Add(FromI32(imm), s.pc) else Add(i.len, s.pc)))
      case Ecall => HandleEcall(env, s)
      case Ebreak => env.debugger(s)
      case _ => Ok(s)
  }

  /** `execute`: the handler runs with the next pc already set, then the pc is committed. */
  function Execute(env: Env, i: Inst, s: State): Result<State>
  {
    match Handle(env, i, s.(nextPc := Add(s.pc, i.len)))
    case Ok(s1) => Ok(s1.(pc := s1.nextPc))
    case Err(e) => Err(e)
  }

  /**
   The machine a failing handler leaves behind: an atomic operation has written its register, a system call that
   overdrew the cycles has been made. What host code that fails itself has done is unknown.
   */
  function HandlerLeft(env: Env, b: Body, s: State): Option<State>
  {
    match b
    case Ecall => (match env.syscall(s) case Ok(s1) => Some(s1) case Err(_) => None)
    case Ebreak => None
    case Atomic(AMO(_), double, rd, rs1, _) => Some(AmoRegister(s, double, rd, s.regs[rs1]))
    case _ => Some(s)
  }

  /** A failing instruction commits its pc all the same. */
  function LeftBehind(env: Env, i: Inst, s: State): Option<State>
  {
    match HandlerLeft(env, i.body, s.(nextPc := Add(s.pc, i.len)))
    case Some(s1) => Some(s1.(pc := s1.nextPc))
    case None => None
  }

  function AmoRegister(s: State, double: bool, rd: Reg, addr: U64): State {
    var w := if double then W64 else W32;
    match LoadWord(s.mem, addr, w)
    case Ok(v) => s.(regs := Set(s.regs, rd, SignExtendWidth(w, v)))
    case Err(_) => s
  }

  // ---------------------------------------------------------------- fetching and decoding

  /** Instruction bits read one halfword at a time. */
  function FetchBits(m: Memory, pc: U64): Result<U32>
  {
    match ExecuteLoad(m, pc, 2)
    case Err(e) => Err(e)
    case Ok(low) =>
      LittleEndianBound(Slice(m.bytes, pc, 2));
      assert Pow256(2) == 0x10000;
      if low % 4 != 3 then Ok(low)
      else
        match ExecuteLoad(m, pc + 2, 2)
        case Err(e) => Err(e)
        case Ok(high) =>
          LittleEndianBound(Slice(m.bytes, pc + 2, 2));
          Ok(low + 0x10000 * high)
  }

  /** Four bytes at once unless the address is in the last two bytes of a page. */
  function DecodeBits(m: Memory, pc: U64): Result<U32>
  {
    if pc % PAGE < PAGE - 2 then
      match ExecuteLoad(m, pc, 4)
      case Err(e) => Err(e)
      case Ok(bits) =>
        FetchBound(m, pc, 4);
        assert Pow256(4) == TWO32;
        Ok(if bits % 4 != 3 then bits % 0x10000 else bits)
    else FetchBits(m, pc)
  }

  lemma {:induction false} FetchBound(m: Memory, addr: U64, n: nat)
    requires 0 < n <= 8 && ExecuteLoad(m, addr, n).Ok?
    ensures ExecuteLoad(m, addr, n).value < Pow256(n)
  {
    LittleEndianBound(Slice(m.bytes, addr, n));
  }

  /** The first factory that knows the bits. */
  function FirstMatch(factories: seq<U32 -> Option<RawInst>>, bits: U32): Option<RawInst>
  {
    if factories == [] then None
    else
      var i := factories[0](bits);
      if i.Some? then i else FirstMatch(factories[1..], bits)
  }

  /** `decode_raw` without its cache. */
  function DecodeRaw(env: Env, m: Memory, pc: U64): Result<RawInst>
  {
    if pc >= |m.bytes| then Err(OutOfBound(pc))
    else
      match DecodeBits(m, pc)
      case Err(e) => Err(e)
      case Ok(bits) =>
        match FirstMatch(env.factories, bits)
        case Some(i) => Ok(i)
        case None => Err(InvalidInstruction(pc, bits))
  }
}
