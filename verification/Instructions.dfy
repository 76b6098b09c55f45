/**
 Decoded instructions (definitions/src/instructions.rs, src/instructions/mod.rs). Each
 constructor of `Body` is one packed format; `len` is the length field of the flag byte.
 */
module Instructions {
  import opened Words
  import opened PagedMemory

  type Reg = r: int | 0 <= r < 32

  const ZERO: Reg := 0
  const RA: Reg := 1
  const SP: Reg := 2
  const A0: Reg := 10
  const A7: Reg := 17

  type Len = n: int | 0 <= n <= 30

  datatype ROp = ADD | SUB | SLTU | OR | MUL | MULH | MULHU | MULHSU | DIV | DIVU | REM | REMU | ADC
  datatype IOp = ADDI | ADDIW | JALR
  datatype UOp = LUI | AUIPC | JAL | FAR_JUMP_REL | FAR_JUMP_ABS | LOAD_IMM
  datatype R4Op = WIDE_MUL | WIDE_MULU | WIDE_MULSU | WIDE_DIV | WIDE_DIVU | SBB | ADCS | SBBS
  datatype R5Op = ADD3A | ADD3B | ADD3C
  datatype BOp = BEQ | BNE | BLT | BGE | BLTU | BGEU
  datatype AOp = LR | SC | AMO(kind: AmoKind)

  type AmoKind = k: int | 0 <= k < 9

  /** Opcodes of the register instructions this model leaves to an oracle: none ends a basic block. */
  type AluCode = c: int | 0x10 <= c < 0x9c witness 0x10

  datatype Body =
    | R(rop: ROp, rd: Reg, rs1: Reg, rs2: Reg)
    | R4(r4op: R4Op, rd: Reg, rs1: Reg, rs2: Reg, rs3: Reg)
    | R5(r5op: R5Op, rd: Reg, rs1: Reg, rs2: Reg, rs3: Reg, rs4: Reg)
    | I(iop: IOp, rd: Reg, rs1: Reg, imm: I32)
    | U(uop: UOp, rd: Reg, imm: I32)
    | Alu(code: AluCode, rd: Reg, rs1: Reg, rs2: Reg, imm: I32)
    | Load(width: Width, signed: bool, rd: Reg, rs1: Reg, imm: I32)
    | Store(width: Width, rs1: Reg, rs2: Reg, imm: I32)
    | Atomic(aop: AOp, double: bool, rd: Reg, rs1: Reg, rs2: Reg)
    | Branch(bop: BOp, rs1: Reg, rs2: Reg, imm: I32)
    | Ecall
    | Ebreak
    | Fence

  datatype Inst = Inst(body: Body, len: Len)

  /** What the instruction factories produce: 16-bit and 32-bit instructions. */
  type RawInst = i: Inst | i.len == 2 || i.len == 4 witness Inst(Fence, 4)

  // ---------------------------------------------------------------- opcodes

  function OpcodeOf(b: Body): nat
  {
    match b
    case R(op, _, _, _) => (match op
      case ADD => 0x11 case SUB => 0x48 case SLTU => 0x3f case OR => 0x2f case MUL => 0x2a
      case MULH => 0x2b case MULHU => 0x2d case MULHSU => 0x2c case DIV => 0x17 case DIVU => 0x18
      case REM => 0x31 case REMU => 0x32 case ADC => 0x93)
    case R4(op, _, _, _, _) => (match op
      case WIDE_MUL => 0x8e case WIDE_MULU => 0x8f case WIDE_MULSU => 0x90 case WIDE_DIV => 0x91
      case WIDE_DIVU => 0x92 case SBB => 0x94 case ADCS => 0x95 case SBBS => 0x96)
    case R5(op, _, _, _, _, _) => (match op case ADD3A => 0x97 case ADD3B => 0x98 case ADD3C => 0x99)
    case I(op, _, _, _) => (match op case ADDI => 0x12 case ADDIW => 0x13 case JALR => 0xa9)
    case U(op, _, _) => (match op
      case LUI => 0x25 case AUIPC => 0x9c case JAL => 0xa7 case FAR_JUMP_REL => 0xaa
      case FAR_JUMP_ABS => 0xab case LOAD_IMM => 0x9b)
    case Alu(code, _, _, _, _) => code
    case Load(w, signed, _, _, _) => (match w
      case W8 => if signed then 0x1c else 0x1e
      case W16 => if signed then 0x22 else 0x24
      case W32 => if signed then 0x27 else 0x29
      case W64 => 0x20)
    case Store(w, _, _, _) => (match w case W8 => 0x35 case W16 => 0x37 case W32 => 0x4a case W64 => 0x36)
    case Atomic(op, double, _, _, _) => (match op
      case LR => if double then 0x58 else 0x4d
      case SC => if double then 0x59 else 0x4e
      case AMO(k) => if double then 0x5a + k else 0x4f + k)
    case Branch(op, _, _, _) => (match op
      case BEQ => 0x9d case BGE => 0x9e case BGEU => 0x9f case BLT => 0xa0 case BLTU => 0xa1 case BNE => 0xa2)
    case Ebreak => 0xa3
    case Ecall => 0xa4
    case Fence => 0xa5
  }

  const MINIMAL_OPCODE := 0x10
  const MINIMAL_BASIC_BLOCK_END_OPCODE := 0x9c
  const MAXIMUM_BASIC_BLOCK_END_OPCODE := 0xab

  predicate IsBasicBlockEnd(i: Inst) {
    var opcode := OpcodeOf(i.body);
    MINIMAL_BASIC_BLOCK_END_OPCODE <= opcode <= MAXIMUM_BASIC_BLOCK_END_OPCODE || opcode % 0x100 < MINIMAL_OPCODE
  }
}
