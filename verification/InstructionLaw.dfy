/**
 What single instructions mean (src/instructions/execute.rs, src/instructions/common.rs): laws of `Execute` stated over
 numbers and bytes, or relating one instruction to another.
 */
module InstructionLaws {
  import opened Words
  import opened PagedMemory
  import opened Instructions
  import opened Machine
  import opened Stepper
  import opened Arithmetic
  import opened Division

  // ---------------------------------------------------------------- branches

  function Moved(s: State, pc: U64): State { s.(pc := pc, nextPc := pc) }

  /** The branch goes to the address, and that is all it does. */
  ghost predicate Goes(env: Env, s: State, op: BOp, rs1: Reg, rs2: Reg, imm: I32, len: Len, pc: U64) {
    Execute(env, Inst(Branch(op, rs1, rs2, imm), len), s) == Ok(Moved(s, pc))
  }

  /** A branch is taken if, four bytes long and aimed sixteen bytes ahead, it does not end up behind itself. */
  ghost predicate Taken(env: Env, s: State, op: BOp, rs1: Reg, rs2: Reg) { Goes(env, s, op, rs1, rs2, 16, 4, Wrap(s.pc + 16)) }

  lemma {:induction false} WrapSum(pc: U64, imm: I32, len: Len)
    ensures Add(FromI32(imm), pc) == Wrap(pc + imm) && Add(len, pc) == Wrap(pc + len) == Add(pc, len)
    ensures Wrap(pc + 16) != Wrap(pc + 4)
  {
    if pc + imm < 0 { assert Wrap(pc + imm) == pc + imm + TWO64; }
  }

  /** Whatever its offset and length, a branch that is taken goes to its target, one that is not to the next instruction. */
  lemma {:induction false} BranchGoes(env: Env, s: State, op: BOp, rs1: Reg, rs2: Reg, imm: I32, len: Len)
    ensures Goes(env, s, op, rs1, rs2, imm, len, Wrap(s.pc + if Taken(env, s, op, rs1, rs2) then imm else len))
  {
    hide RegisterEffect, BranchTaken, Add, FromI32, Wrap;
    WrapSum(s.pc, imm, len);
    WrapSum(s.pc, 16, 4);
    Branching(env, s, op, rs1, rs2, imm, len);
    Branching(env, s, op, rs1, rs2, 16, 4);
  }

  lemma {:induction false} Branching(env: Env, s: State, op: BOp, rs1: Reg, rs2: Reg, imm: I32, len: Len)
    ensures Execute(env, Inst(Branch(op, rs1, rs2, imm), len), s)
            == Ok(Moved(s, if BranchTaken(op, s.regs[rs1], s.regs[rs2]) then Add(FromI32(imm), s.pc) else Add(len, s.pc)))
  {
    hide RegisterEffect, BranchTaken;
  }

  lemma {:induction false} TakenIs(env: Env, s: State, op: BOp, rs1: Reg, rs2: Reg)
    ensures Taken(env, s, op, rs1, rs2) <==> BranchTaken(op, s.regs[rs1], s.regs[rs2])
  {
    hide RegisterEffect, BranchTaken, Add, FromI32, Wrap, Execute;
    WrapSum(s.pc, 16, 4);
    Branching(env, s, op, rs1, rs2, 16, 4);
  }

  /** All registers moved by half the range, which turns the signed order into the unsigned one. */
  function Shifted(s: State): State { s.(regs := seq(32, r requires 0 <= r < 32 => Add(s.regs[r], TWO63))) }

  /** The six branches: three are the opposites of the others, the orders are total, and each is tied to another instruction. */
  lemma {:induction false} BranchLaws(env: Env, s: State, rs1: Reg, rs2: Reg, rd: Reg)
    requires rd != ZERO
    ensures Taken(env, s, BEQ, rs1, rs2) <==> s.regs[rs1] == s.regs[rs2]
    ensures Taken(env, s, BNE, rs1, rs2) <==> !Taken(env, s, BEQ, rs1, rs2)
    ensures Taken(env, s, BGE, rs1, rs2) <==> !Taken(env, s, BLT, rs1, rs2)
    ensures Taken(env, s, BGEU, rs1, rs2) <==> !Taken(env, s, BLTU, rs1, rs2)
    ensures OneOf(Taken(env, s, BLT, rs1, rs2), Taken(env, s, BEQ, rs1, rs2), Taken(env, s, BLT, rs2, rs1))
    ensures OneOf(Taken(env, s, BLTU, rs1, rs2), Taken(env, s, BEQ, rs1, rs2), Taken(env, s, BLTU, rs2, rs1))
    ensures var sltu := Execute(env, Inst(R(SLTU, rd, rs1, rs2), 4), s);
            sltu.Ok? && (Taken(env, s, BLTU, rs1, rs2) <==> sltu.value.regs[rd] == 1)
    ensures Taken(env, s, BLT, rs1, rs2) <==> Taken(env, Shifted(s), BLTU, rs1, rs2)
  {
    hide Taken, Execute;
    TakenIs(env, s, BEQ, rs1, rs2);
    TakenIs(env, s, BNE, rs1, rs2);
    TakenIs(env, s, BLT, rs1, rs2);
    TakenIs(env, s, BLT, rs2, rs1);
    TakenIs(env, s, BGE, rs1, rs2);
    TakenIs(env, s, BLTU, rs1, rs2);
    TakenIs(env, s, BLTU, rs2, rs1);
    TakenIs(env, s, BGEU, rs1, rs2);
    TakenIs(env, Shifted(s), BLTU, rs1, rs2);
    SltuIs(env, s, rd, rs1, rs2);
  }

  predicate OneOf(a: bool, b: bool, c: bool) { (a && !b && !c) || (!a && b && !c) || (!a && !b && c) }

  lemma {:induction false} SltuIs(env: Env, s: State, rd: Reg, rs1: Reg, rs2: Reg)
    requires rd != ZERO
    ensures var r := Execute(env, Inst(R(SLTU, rd, rs1, rs2), 4), s); r.Ok? && r.value.regs[rd] == Lt(s.regs[rs1], s.regs[rs2])
  {
  }

  // ---------------------------------------------------------------- register instructions

  /** What an instruction on two registers gives, x0 not being its destination. */
  ghost function ResultOf(env: Env, s: State, op: ROp, rs1: Reg, rs2: Reg): U64
    requires op != ADC
  {
    var r := Execute(env, Inst(R(op, RA, rs1, rs2), 4), s);
    if r.Ok? then r.value.regs[RA] else 0
  }

  /** Whatever the destination, only it changes, to the same value, and x0 not at all. */
  lemma {:induction false} RegisterLaw(env: Env, s: State, op: ROp, rd: Reg, rs1: Reg, rs2: Reg, len: Len)
    requires op != ADC
    ensures var r := Execute(env, Inst(R(op, rd, rs1, rs2), len), s);
            && r.Ok? && OnlyRegisters(s, r.value, Wrap(s.pc + len))
            && r.value.regs == if rd == ZERO then s.regs else s.regs[rd := ResultOf(env, s, op, rs1, rs2)]
  {
    hide Compute, Wrap;
    SumWraps(s.pc, len);
  }

  lemma {:induction false} ResultIs(env: Env, s: State, op: ROp, rs1: Reg, rs2: Reg)
    requires op != ADC
    ensures ResultOf(env, s, op, rs1, rs2) == Compute(op, s.regs[rs1], s.regs[rs2])
  {
    hide Compute;
  }

  /** Sums and differences modulo 2^64, the unsigned comparison, and the bitwise or. */
  lemma {:induction false} SumLaw(env: Env, s: State, rs1: Reg, rs2: Reg, i: nat)
    requires i < 64
    ensures var a, b := s.regs[rs1], s.regs[rs2];
            && (ResultOf(env, s, ADD, rs1, rs2) - (a as int + b as int)) % TWO64 == 0
            && (ResultOf(env, s, SUB, rs1, rs2) - (a as int - b as int)) % TWO64 == 0
            && ResultOf(env, s, SLTU, rs1, rs2) == (if a < b then 1 else 0)
            && (Bit(ResultOf(env, s, OR, rs1, rs2), i) <==> Bit(a, i) || Bit(b, i))
  {
    hide ResultOf, OrBits, Bit;
    ResultIs(env, s, ADD, rs1, rs2);
    ResultIs(env, s, SUB, rs1, rs2);
    ResultIs(env, s, SLTU, rs1, rs2);
    ResultIs(env, s, OR, rs1, rs2);
    OrBitsBit(s.regs[rs1], s.regs[rs2], 64, i);
  }

  ghost predicate IsProduct(a: U64, b: U64, low: U64, high: U64, highUnsigned: U64, highMixed: U64) {
    && Signed(high) * TWO64 + low == Signed(a) * Signed(b)
    && highUnsigned as int * TWO64 + low as int == a as int * b as int
    && Signed(highMixed) * TWO64 + low == Signed(a) * b
  }

  /** The high and the low product together are the product, signed, unsigned and mixed. */
  lemma {:induction false} ProductLaw(env: Env, s: State, rs1: Reg, rs2: Reg)
    ensures IsProduct(s.regs[rs1], s.regs[rs2], ResultOf(env, s, MUL, rs1, rs2), ResultOf(env, s, MULH, rs1, rs2),
                      ResultOf(env, s, MULHU, rs1, rs2), ResultOf(env, s, MULHSU, rs1, rs2))
  {
    hide ResultOf, Signed, Mul, MulHighSigned, MulHighUnsigned, MulHighSignedUnsigned;
    ResultIs(env, s, MUL, rs1, rs2);
    ResultIs(env, s, MULH, rs1, rs2);
    ResultIs(env, s, MULHU, rs1, rs2);
    ResultIs(env, s, MULHSU, rs1, rs2);
    WholeProduct(s.regs[rs1], s.regs[rs2]);
  }

  /** The quotient rounded towards zero, and its remainder. */
  predicate Divides(a: int, b: int, quotient: int, remainder: int) {
    a == b * quotient + remainder && Abs(remainder) < Abs(b) && (a >= 0 ==> remainder >= 0) && (a <= 0 ==> remainder <= 0)
  }

  /** Division truncates; by zero it gives all ones and leaves the dividend, and -2^63 by -1 gives -2^63 and leaves nothing. */
  lemma {:induction false} QuotientLaw(env: Env, s: State, rs1: Reg, rs2: Reg)
    ensures var a, b, q, r := s.regs[rs1], s.regs[rs2], ResultOf(env, s, DIV, rs1, rs2), ResultOf(env, s, REM, rs1, rs2);
            if b == 0 then q == U64_MAX && r == a
            else if Signed(a) == -TWO63 && Signed(b) == -1 then Signed(q) == -TWO63 && r == 0
            else Divides(Signed(a), Signed(b), Signed(q), Signed(r))
    ensures var a, b, q, r := s.regs[rs1], s.regs[rs2], ResultOf(env, s, DIVU, rs1, rs2), ResultOf(env, s, REMU, rs1, rs2);
            if b == 0 then q == U64_MAX && r == a else Divides(a, b, q, r)
  {
    hide ResultOf, Divides;
    ResultIs(env, s, DIV, rs1, rs2);
    ResultIs(env, s, REM, rs1, rs2);
    ResultIs(env, s, DIVU, rs1, rs2);
    ResultIs(env, s, REMU, rs1, rs2);
    if s.regs[rs2] != 0 {
      SignedQuotient(s.regs[rs1], s.regs[rs2]);
      UnsignedQuotient(s.regs[rs1], s.regs[rs2]);
    }
  }

  lemma {:induction false} SignedQuotient(a: U64, b: U64)
    requires b != 0
    ensures DivOverflows(a, b) <==> Signed(a) == -TWO63 && Signed(b) == -1
    ensures !DivOverflows(a, b) ==> Divides(Signed(a), Signed(b), Signed(DivSigned(a, b)), Signed(RemSigned(a, b)))
    ensures DivOverflows(a, b) ==> Signed(DivSigned(a, b)) == -TWO63 && RemSigned(a, b) == 0
  {
    hide TruncQuot, TruncRem, Wrap;
    if !DivOverflows(a, b) {
      var x, y := Signed(a), Signed(b);
      TruncatedDivision(x, y);
      QuotientFits(x, y, TruncQuot(x, y), TruncRem(x, y));
      SignedOfWrap(TruncQuot(x, y));
      SignedOfWrap(TruncRem(x, y));
    }
  }

  lemma {:induction false} QuotientFits(x: int, y: int, q: int, r: int)
    requires -TWO63 <= x < TWO63 && -TWO63 <= y < TWO63 && y != 0 && !(x == -TWO63 && y == -1)
    requires x == y * q + r && Abs(r) < Abs(y) && Abs(q) <= Abs(x)
    ensures -TWO63 <= q < TWO63 && -TWO63 <= r < TWO63
  {
  }

  lemma {:induction false} UnsignedQuotient(a: U64, b: U64)
    requires b != 0
    ensures Divides(a, b, DivUnsigned(a, b), RemUnsigned(a, b))
  {
    DivMod(a, b);
    QuotientBound(a, b);
    WrapUnique(a / b, 0, a / b);
    WrapUnique(a % b, 0, a % b);
  }

  // ---------------------------------------------------------------- jumps and constants

  /** The register holds the number modulo 2^64, unless it is x0, and no other changes. */
  predicate Written(regs: Registers, regs': Registers, rd: Reg, value: int) {
    (forall r :: 0 <= r < 32 && (r != rd || rd == ZERO) ==> regs'[r] == regs[r]) && (rd != ZERO ==> (regs'[rd] - value) % TWO64 == 0)
  }

  /** Nothing but registers, pc and next pc differs. */
  predicate OnlyRegisters(s: State, s': State, pc: U64) { s' == Moved(s, pc).(regs := s'.regs) }

  lemma {:induction false} Congruent(a: U64, x: int)
    requires a == Wrap(x)
    ensures (a - x) % TWO64 == 0
  {
    var q := x / TWO64;
    assert a - x == -q * TWO64;
  }

  lemma {:induction false} SumWraps(a: U64, imm: I32)
    ensures Add(a, FromI32(imm)) == Wrap(a + imm)
  {
    if a + imm < 0 { assert Wrap(a + imm) == a + imm + TWO64; }
  }

  /** JAL: relative to its own address; the link is the address behind it. */
  lemma {:induction false} JalLaw(env: Env, s: State, rd: Reg, imm: I32, len: Len)
    ensures var r := Execute(env, Inst(U(JAL, rd, imm), len), s);
            && r.Ok? && OnlyRegisters(s, r.value, Wrap(s.pc + imm)) && Written(s.regs, r.value.regs, rd, s.pc + len)
  {
    SumWraps(s.pc, imm);
    SumWraps(s.pc, len);
    Congruent(Wrap(s.pc + len), s.pc + len);
    hide Wrap;
  }

  /** JALR: the base is read before the link is written, and the target is even. */
  lemma {:induction false} JalrLaw(env: Env, s: State, rd: Reg, rs1: Reg, imm: I32, len: Len)
    ensures var r := Execute(env, Inst(I(JALR, rd, rs1, imm), len), s);
            var target := Wrap(s.regs[rs1] + imm);
            && r.Ok? && OnlyRegisters(s, r.value, r.value.pc) && r.value.pc % 2 == 0 && target - 1 <= r.value.pc <= target
            && Written(s.regs, r.value.regs, rd, s.pc + len)
  {
    SumWraps(s.regs[rs1], imm);
    SumWraps(s.pc, len);
    Congruent(Wrap(s.pc + len), s.pc + len);
    hide Wrap;
  }

  /** LUI, AUIPC, ADDI: a constant, an address, a sum. */
  lemma {:induction false} ConstantLaws(env: Env, s: State, rd: Reg, rs1: Reg, imm: I32, len: Len)
    ensures var r := Execute(env, Inst(U(LUI, rd, imm), len), s);
            r.Ok? && OnlyRegisters(s, r.value, Wrap(s.pc + len)) && Written(s.regs, r.value.regs, rd, imm)
    ensures var r := Execute(env, Inst(U(AUIPC, rd, imm), len), s);
            r.Ok? && OnlyRegisters(s, r.value, Wrap(s.pc + len)) && Written(s.regs, r.value.regs, rd, s.pc + imm)
    ensures var r := Execute(env, Inst(I(ADDI, rd, rs1, imm), len), s);
            r.Ok? && OnlyRegisters(s, r.value, Wrap(s.pc + len)) && Written(s.regs, r.value.regs, rd, s.regs[rs1] + imm)
  {
    SumWraps(s.pc, imm);
    SumWraps(s.regs[rs1], imm);
    SumWraps(s.pc, len);
    Congruent(Wrap(s.pc + imm), s.pc + imm);
    Congruent(Wrap(s.regs[rs1] + imm), s.regs[rs1] + imm);
    assert (FromI32(imm) - imm) % TWO64 == 0;
    hide Wrap, Add, FromI32;
  }

  /** ADDIW: the sum modulo 2^32, as a signed 32-bit number. */
  lemma {:induction false} AddiwLaw(env: Env, s: State, rd: Reg, rs1: Reg, imm: I32, len: Len)
    ensures var r := Execute(env, Inst(I(ADDIW, rd, rs1, imm), len), s);
            && r.Ok? && OnlyRegisters(s, r.value, Wrap(s.pc + len))
            && (rd != ZERO ==> Extends(r.value.regs[rd], s.regs[rs1] + imm, W32))
  {
    SumWraps(s.pc, len);
    SumWraps(s.regs[rs1], imm);
    Congruent(Wrap(s.regs[rs1] + imm), s.regs[rs1] + imm);
    Extend32(Wrap(s.regs[rs1] + imm), s.regs[rs1] + imm);
    hide Wrap, SignExtend32, Extends;
  }

  // ---------------------------------------------------------------- sign extension

  /** How many values the width has. */
  function Span(w: Width): nat {
    match w case W8 => 0x100 case W16 => 0x10000 case W32 => TWO32 case W64 => TWO64
  }

  lemma {:induction false} SpanIs(w: Width)
    ensures Pow256(w.Bytes()) == Span(w)
  {
    assert Pow256(1) == 0x100 && Pow256(2) == 0x10000 && Pow256(4) == TWO32 && Pow256(8) == TWO64;
  }

  /** The register, read as signed, is what the number is modulo the span of the width, as a signed number of that width. */
  predicate Extends(r: U64, x: int, w: Width) {
    var half: int := Span(w) / 2;
    -half <= Signed(r) < half && (Signed(r) - x) % Span(w) == 0
  }

  lemma {:induction false} Extend32(a: U64, x: int)
    requires (a - x) % TWO64 == 0
    ensures Extends(SignExtend32(a), x, W32)
  {
    var q, p, low := (a - x) / TWO64, a / TWO32, a % TWO32;
    assert a - x == TWO64 * q && a == TWO32 * p + low;
    assert low - x == TWO32 * (TWO32 * q - p);
  }

  /** Sign extension of a loaded value, for each width. */
  lemma {:induction false} ExtendWidth(w: Width, v: U64)
    requires v < Span(w)
    ensures Extends(SignExtendWidth(w, v), v, w)
  {
    match w {
      case W8 => assert v % 0x100 == v;
      case W16 => assert v % 0x10000 == v;
      case W32 => assert v % TWO32 == v;
      case W64 =>
    }
  }

  lemma {:induction false} ExtendsMod(r: U64, x: U64, w: Width)
    requires Extends(r, x % Span(w), w)
    ensures Extends(r, x, w)
  {
    hide Span, Signed;
    SameResidue(Signed(r), x, Span(w));
  }

  lemma {:induction false} SameResidue(y: int, x: nat, d: nat)
    requires d > 0 && (y - x % d) % d == 0
    ensures (y - x) % d == 0
  {
    var k, q := (y - x % d) / d, x / d;
    assert y - x % d == d * k && x == d * q + x % d;
    Difference(d, k, q);
    MultipleOf(d, k - q);
  }

  lemma {:induction false} Difference(d: int, k: int, q: int)
    ensures d * k - d * q == d * (k - q)
  {
  }

  lemma {:induction false} MultipleOf(d: nat, j: int)
    requires d > 0
    ensures (d * j) % d == 0
  {
    var v := d * j;
    var q, r := v / d, v % d;
    assert v == d * q + r;
    Difference(d, j, q);
    Outside(d, j - q);
  }

  lemma {:induction false} Outside(d: nat, k: int)
    ensures k >= 1 ==> d * k >= d
    ensures k <= -1 ==> d * k <= -(d as int)
  {
    if k >= 1 { assert d * k == d + d * (k - 1) && d * (k - 1) >= 0; }
    if k <= -1 { assert d * k == -(d as int) + d * (k + 1) && d * (k + 1) <= 0; }
  }

  // ---------------------------------------------------------------- loads and stores

  lemma {:induction false} WordOf(m: Memory, addr: U64, w: Width)
    ensures match LoadWord(m, addr, w)
            case Ok(v) => InRange(m, addr, w.Bytes()) && v == LittleEndian(Slice(m.bytes, addr, w.Bytes())) < Span(w)
            case Err(_) => !InRange(m, addr, w.Bytes())
  {
    hide LittleEndian, Pow256;
    SpanIs(w);
    CheckNoOverflowExact(m, addr, w.Bytes());
    if InRange(m, addr, w.Bytes()) { LittleEndianBound(Slice(m.bytes, addr, w.Bytes())); }
  }

  /** A load succeeds exactly if its bytes exist; the register gets them little endian, as a signed or an unsigned number. */
  lemma {:induction false} LoadLaw(env: Env, s: State, w: Width, signed: bool, rd: Reg, rs1: Reg, imm: I32, len: Len)
    ensures var r := Execute(env, Inst(Body.Load(w, signed, rd, rs1, imm), len), s);
            var addr, n := Wrap(s.regs[rs1] + imm), w.Bytes();
            && (r.Ok? <==> InRange(s.mem, addr, n))
            && (r.Ok? ==>
                  var v := LittleEndian(Slice(s.mem.bytes, addr, n));
                  && OnlyRegisters(s, r.value, Wrap(s.pc + len)) && (rd == ZERO ==> r.value.regs == s.regs)
                  && (rd != ZERO ==>
                        && r.value.regs == s.regs[rd := r.value.regs[rd]]
                        && if signed then Extends(r.value.regs[rd], v, w) else r.value.regs[rd] == v))
  {
    hide LoadWord, SignExtendWidth, Extends, RegisterEffect, LittleEndian, Slice, Wrap, Pow256;
    SumWraps(s.regs[rs1], imm);
    SumWraps(s.pc, len);
    var addr := Wrap(s.regs[rs1] + imm);
    WordOf(s.mem, addr, w);
    if InRange(s.mem, addr, w.Bytes()) { ExtendWidth(w, LittleEndian(Slice(s.mem.bytes, addr, w.Bytes()))); }
  }

  /** The low bytes of a value, little endian, are the value modulo 256^n. */
  lemma {:induction false} LowBytes(v: nat, n: nat)
    ensures Pow256(n) > 0 && LittleEndian(ToLittleEndian(v, n)) == v % Pow256(n)
  {
    if n > 0 {
      LowBytes(v / 256, n - 1);
      var rest := ToLittleEndian(v / 256, n - 1);
      assert ([v % 256] + rest)[1..] == rest;
      ModStep(v, Pow256(n - 1));
    }
  }

  lemma {:induction false} ModStep(v: nat, p: nat)
    requires p > 0
    ensures v % (256 * p) == v % 256 + 256 * (v / 256 % p)
  {
    var q, r := v / 256 / p, v / 256 % p;
    assert v / 256 == p * q + r;
    Regroup(p, q);
    ModUnique(v, q, 256 * p, 256 * r + v % 256);
  }

  lemma {:induction false} Regroup(p: nat, q: nat)
    ensures 256 * (p * q) == (256 * p) * q
  {
  }

  lemma {:induction false} ModUnique(v: nat, q: nat, d: nat, r: nat)
    requires r < d && v == d * q + r
    ensures v % d == r
  {
    var q', r' := v / d, v % d;
    assert v == d * q' + r';
    if q' > q { AtLeastOne(d, q', q); }
    if q > q' { AtLeastOne(d, q, q'); }
  }

  lemma {:induction false} AtLeastOne(d: nat, a: nat, b: nat)
    requires a > b
    ensures d * a >= d * b + d
  {
    var k := a - b - 1;
    assert d * a == d * b + d + d * k;
  }

  /** A store succeeds exactly if its bytes exist and none of its pages is executable; then they are there, and dirty. */
  lemma {:induction false} StoreLaw(env: Env, s: State, w: Width, rs1: Reg, rs2: Reg, imm: I32, len: Len)
    ensures var r := Execute(env, Inst(Body.Store(w, rs1, rs2, imm), len), s);
            var addr, n := Wrap(s.regs[rs1] + imm), w.Bytes();
            && (r.Ok? <==> Writable(s.mem, addr, n))
            && (r.Ok? ==>
                  && r.value == Moved(s, Wrap(s.pc + len)).(mem := r.value.mem) && r.value.mem.lr == s.mem.lr
                  && r.value.mem.bytes == PagedMemory.Write(s.mem.bytes, addr, ToLittleEndian(s.regs[rs2], n))
                  && forall p :: 0 <= p < |s.mem.flags| ==>
                       r.value.mem.flags[p] == if PageOf(addr) <= p <= LastPage(addr, n) then s.mem.flags[p].Or(DIRTY) else s.mem.flags[p])
  {
    hide RegisterEffect, ToLittleEndian, Wrap;
    SumWraps(s.regs[rs1], imm);
    SumWraps(s.pc, len);
    StoreErrorExact(s.mem, Wrap(s.regs[rs1] + imm), w.Bytes());
  }

  /** What has been stored is loaded again. */
  lemma {:induction false} StoreThenLoad(env: Env, s: State, w: Width, rs1: Reg, rs2: Reg, rd: Reg, imm: I32, len: Len, len': Len)
    requires rd != ZERO && Execute(env, Inst(Body.Store(w, rs1, rs2, imm), len), s).Ok?
    ensures var stored := Execute(env, Inst(Body.Store(w, rs1, rs2, imm), len), s).value;
            var r := Execute(env, Inst(Body.Load(w, false, rd, rs1, imm), len'), stored);
            r.Ok? && r.value.regs[rd] == s.regs[rs2] % Span(w)
    ensures var stored := Execute(env, Inst(Body.Store(w, rs1, rs2, imm), len), s).value;
            var r := Execute(env, Inst(Body.Load(w, true, rd, rs1, imm), len'), stored);
            r.Ok? && Extends(r.value.regs[rd], s.regs[rs2], w)
  {
    hide Execute, ToLittleEndian, Wrap, Extends, Pow256, LittleEndian;
    StoreLaw(env, s, w, rs1, rs2, imm, len);
    var stored := Execute(env, Inst(Body.Store(w, rs1, rs2, imm), len), s).value;
    LoadLaw(env, stored, w, false, rd, rs1, imm, len');
    LoadLaw(env, stored, w, true, rd, rs1, imm, len');
    var addr, n := Wrap(s.regs[rs1] + imm), w.Bytes();
    var data := ToLittleEndian(s.regs[rs2], n);
    assert Slice(stored.mem.bytes, addr, n) == data;
    LowBytes(s.regs[rs2], n);
    SpanIs(w);
    ExtendsMod(Execute(env, Inst(Body.Load(w, true, rd, rs1, imm), len'), stored).value.regs[rd], s.regs[rs2], w);
  }

  // ---------------------------------------------------------------- atomic operations

  function AtomicWidth(double: bool): Width { if double then W64 else W32 }

  /** Load-reserved is a load that is signed and leaves its address behind. */
  lemma {:induction false} LrLaw(env: Env, s: State, double: bool, rd: Reg, rs1: Reg, rs2: Reg, len: Len)
    ensures var r := Execute(env, Inst(Atomic(LR, double, rd, rs1, rs2), len), s);
            var addr, w := s.regs[rs1], AtomicWidth(double);
            && (r.Ok? <==> InRange(s.mem, addr, w.Bytes()))
            && (r.Ok? ==>
                  && r.value == Moved(s, Wrap(s.pc + len)).(regs := r.value.regs, mem := s.mem.(lr := addr))
                  && (rd == ZERO ==> r.value.regs == s.regs)
                  && (rd != ZERO ==>
                        && r.value.regs == s.regs[rd := r.value.regs[rd]]
                        && Extends(r.value.regs[rd], LittleEndian(Slice(s.mem.bytes, addr, w.Bytes())), w)))
  {
    hide LoadWord, SignExtendWidth, Extends, RegisterEffect, LittleEndian, Slice, Wrap, HandleSc, HandleAmo;
    SumWraps(s.pc, len);
    var addr, w := s.regs[rs1], AtomicWidth(double);
    WordOf(s.mem, addr, w);
    if InRange(s.mem, addr, w.Bytes()) { ExtendWidth(w, LittleEndian(Slice(s.mem.bytes, addr, w.Bytes()))); }
  }

  /** An atomic operation gives the old value, sign extended, and leaves what it computes from it in its place. */
  lemma {:induction false} AmoLaw(env: Env, s: State, k: AmoKind, double: bool, rd: Reg, rs1: Reg, rs2: Reg, len: Len)
    ensures var r := Execute(env, Inst(Atomic(AMO(k), double, rd, rs1, rs2), len), s);
            var addr, w := s.regs[rs1], AtomicWidth(double);
            && (r.Ok? <==> Writable(s.mem, addr, w.Bytes()))
            && (r.Ok? ==>
                  var v := LittleEndian(Slice(s.mem.bytes, addr, w.Bytes()));
                  && v < TWO64
                  && r.value == Moved(s, Wrap(s.pc + len)).(regs := r.value.regs, mem := r.value.mem)
                  && (rd == ZERO ==> r.value.regs == s.regs)
                  && (rd != ZERO ==> r.value.regs == s.regs[rd := r.value.regs[rd]] && Extends(r.value.regs[rd], v, w))
                  && r.value.mem.bytes
                     == PagedMemory.Write(s.mem.bytes, addr, ToLittleEndian(env.amo(k, double, v, s.regs[rs2]), w.Bytes())))
  {
    hide LoadWord, SignExtendWidth, Extends, RegisterEffect, LittleEndian, Slice, Wrap, HandleSc, HandleLr, ToLittleEndian;
    SumWraps(s.pc, len);
    var addr, w := s.regs[rs1], AtomicWidth(double);
    WordOf(s.mem, addr, w);
    StoreErrorExact(s.mem, addr, w.Bytes());
    if InRange(s.mem, addr, w.Bytes()) { ExtendWidth(w, LittleEndian(Slice(s.mem.bytes, addr, w.Bytes()))); }
  }

  // ---------------------------------------------------------------- faults

  /** A fault moves the machine behind the instruction; memory and registers are untouched, but for what an atomic operation loaded. */
  lemma {:induction false} FaultLaw(env: Env, i: Inst, s: State)
    requires !i.body.Ecall? && !i.body.Ebreak?
    ensures var left := LeftBehind(env, i, s);
            && left.Some? && OnlyRegisters(s, left.value, Wrap(s.pc + i.len))
            && (left.value.regs != s.regs ==>
                  && i.body.Atomic? && i.body.aop.AMO? && i.body.rd != ZERO
                  && left.value.regs == s.regs[i.body.rd := left.value.regs[i.body.rd]]
                  && var addr, w := s.regs[i.body.rs1], AtomicWidth(i.body.double);
                     InRange(s.mem, addr, w.Bytes())
                     && Extends(left.value.regs[i.body.rd], LittleEndian(Slice(s.mem.bytes, addr, w.Bytes())), w))
  {
    hide LoadWord, SignExtendWidth, Extends, LittleEndian, Slice, Wrap;
    SumWraps(s.pc, i.len);
    if i.body.Atomic? {
      var addr, w := s.regs[i.body.rs1], AtomicWidth(i.body.double);
      WordOf(s.mem, addr, w);
      if InRange(s.mem, addr, w.Bytes()) { ExtendWidth(w, LittleEndian(Slice(s.mem.bytes, addr, w.Bytes()))); }
    }
  }
}
