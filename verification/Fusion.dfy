/**
 Macro-operation fusion (`decode_mop` in src/decoder.rs) with its guards as written. A rule
 looks at the raw instructions that follow the head; `Window` is what it can see there.
 */
module Fusion {
  import opened Words
  import opened PagedMemory
  import opened Instructions
  import opened Machine

  const VERSION2: nat := 2
  const LOOKAHEAD: nat := 5

  /** The length of the first `n` instructions. */
  function Length(w: seq<RawInst>, n: nat): (r: nat)
    requires n <= |w|
    ensures 2 * n <= r <= 4 * n
  {
    if n == 0 then 0 else Length(w, n - 1) + w[n - 1].len
  }

  /** Up to `n` raw instructions from `pc` on, ending before the first that cannot be decoded. */
  function Window(env: Env, m: Memory, pc: U64, n: nat): (w: seq<RawInst>)
    ensures |w| <= n
  {
    if n == 0 then []
    else
      var w := Window(env, m, pc, n - 1);
      var at := pc + Length(w, |w|);
      if |w| < n - 1 || at >= TWO64 then w
      else match DecodeRaw(env, m, at) case Ok(i) => w + [i] case Err(_) => w
  }

  // ---------------------------------------------------------------- the guards

  predicate IsR(b: Body, op: ROp) { b.R? && b.rop == op }

  predicate IsI(b: Body, op: IOp) { b.I? && b.iop == op }

  predicate AdcGuard(h: Body, n: Body, k: Body, b: Body, t: Body) {
    && IsR(h, ADD) && h.rd == h.rs1 && h.rs1 != h.rs2
    && IsR(n, SLTU) && n.rd == h.rs2 && h.rs2 == n.rs2 && n.rs1 == h.rs1
    && IsR(k, ADD) && k.rd == k.rs1 && k.rs1 == n.rs1 && k.rs2 != h.rs1 && k.rs2 != h.rs2
    && IsR(b, SLTU) && b.rd == b.rs2 && b.rs2 == k.rs2 && b.rs1 == k.rs1
    && IsR(t, OR) && t.rd == t.rs1 && t.rs1 == h.rs2 && t.rs2 == b.rs2
    && h.rd != ZERO && n.rd != ZERO && b.rd != ZERO
  }

  predicate Add3Shape(i0: Body, i1: Body, i2: Body) { IsR(i0, ADD) && IsR(i1, SLTU) && IsR(i2, ADD) }

  predicate Add3aGuard(i0: Body, i1: Body, i2: Body) {
    && Add3Shape(i0, i1, i2)
    && i0.rs2 == i0.rd && i1.rs1 == i0.rd && i1.rs2 == i0.rs1 && i2.rs1 == i1.rd
    && i0.rd != i0.rs1 && i0.rd != i2.rs2 && i1.rd != i2.rs2 && i0.rd != ZERO && i1.rd != ZERO
  }

  predicate Add3bGuard(i0: Body, i1: Body, i2: Body) {
    && Add3Shape(i0, i1, i2)
    && i1.rd == i0.rs1 && i1.rs1 == i0.rd && i1.rs2 == i0.rs1 && i2.rs1 == i0.rs1
    && i0.rd != i0.rs1 && i0.rd != i2.rs2 && i0.rs1 != i2.rs2 && i0.rd != ZERO && i0.rs1 != ZERO
  }

  predicate Add3cGuard(i0: Body, i1: Body, i2: Body) {
    && Add3Shape(i0, i1, i2)
    && i1.rs1 == i0.rd && i1.rs2 == i0.rs1 && i2.rd == i1.rd && i2.rs1 == i1.rd
    && i0.rd != i0.rs1 && i0.rd != i2.rs2 && i1.rd != i2.rs2 && i0.rd != ZERO && i1.rd != ZERO
  }

  /** An addition may have its sources exchanged so that the destination is not the first one. */
  function AdcsHead(h: Body): Body
    requires IsR(h, ADD)
  {
    if h.rd == h.rs1 && h.rd != h.rs2 then R(ADD, h.rd, h.rs2, h.rs1) else h
  }

  predicate AdcsGuard(h: Body, i1: Body) {
    && IsR(h, ADD) && IsR(i1, SLTU)
    && var i0 := AdcsHead(h); i1.rs1 == i0.rd && i1.rs2 == i0.rs1 && i0.rd != i0.rs1 && i0.rd != ZERO
  }

  /** The test meant for the second source of the first SLTU compares it with itself. */
  predicate SbbGuard(h: Body, n: Body, k: Body, b: Body, t: Body) {
    && IsR(h, SUB) && h.rd == h.rs2 && h.rs1 != h.rs2
    && IsR(n, SLTU) && n.rd != h.rs1 && n.rd != h.rs2 && n.rs1 == h.rs1 && n.rs2 == n.rs2
    && IsR(k, SUB) && k.rd == h.rs1 && k.rs1 == h.rs2 && k.rs2 != h.rs1 && k.rs2 != h.rs2 && k.rs2 != n.rd
    && IsR(b, SLTU) && b.rd == k.rs2 && b.rs1 == h.rs2 && b.rs2 == h.rs1
    && IsR(t, OR) && t.rd == h.rd && t.rs1 == k.rs2 && t.rs2 == n.rd
    && h.rs1 != ZERO && h.rs2 != ZERO && k.rs2 != ZERO && n.rd != ZERO
  }

  predicate SbbsGuard(i0: Body, i1: Body) {
    IsR(i0, SUB) && IsR(i1, SLTU) && i1.rs1 == i0.rs1 && i1.rs2 == i0.rs2 && i0.rd != i0.rs1 && i0.rd != i0.rs2
  }

  /** MULH*+MUL and DIV*+REM*: both results of one operation. */
  function WidePartner(op: ROp): Option<(ROp, R4Op)> {
    match op
    case MULH => Some((MUL, WIDE_MUL))
    case MULHU => Some((MUL, WIDE_MULU))
    case MULHSU => Some((MUL, WIDE_MULSU))
    case DIV => Some((REM, WIDE_DIV))
    case DIVU => Some((REMU, WIDE_DIVU))
    case _ => None
  }

  predicate WideGuard(h: Body, n: Body) {
    && h.R? && WidePartner(h.rop).Some? && IsR(n, WidePartner(h.rop).value.0)
    && h.rd != h.rs1 && h.rd != h.rs2 && h.rs1 == n.rs1 && h.rs2 == n.rs2 && h.rd != n.rd
  }

  predicate FarJumpGuard(version: nat, h: Body, n: Body) {
    && h.U? && IsI(n, JALR)
    && n.rs1 == h.rd && n.rd == RA && (version >= VERSION2 ==> n.rs1 == RA)
  }

  // ---------------------------------------------------------------- the rules

  function FuseAdd(version: nat, w: seq<RawInst>): Option<Inst>
    requires |w| > 0 && IsR(w[0].body, ADD)
  {
    if |w| >= 5 && AdcGuard(w[0].body, w[1].body, w[2].body, w[3].body, w[4].body) then
      Some(Inst(R(ADC, w[0].body.rd, w[1].body.rd, w[3].body.rd), Length(w, 5)))
    else if version < VERSION2 then None
    else if |w| >= 3 && Add3aGuard(w[0].body, w[1].body, w[2].body) then
      Some(Inst(R5(ADD3A, w[0].body.rd, w[0].body.rs1, w[1].body.rd, w[2].body.rd, w[2].body.rs2), Length(w, 3)))
    else if |w| >= 3 && Add3bGuard(w[0].body, w[1].body, w[2].body) then
      Some(Inst(R5(ADD3B, w[0].body.rd, w[0].body.rs1, w[0].body.rs2, w[2].body.rd, w[2].body.rs2), Length(w, 3)))
    else if |w| >= 3 && Add3cGuard(w[0].body, w[1].body, w[2].body) then
      Some(Inst(R5(ADD3C, w[0].body.rd, w[0].body.rs1, w[0].body.rs2, w[1].body.rd, w[2].body.rs2), Length(w, 3)))
    else if |w| >= 2 && AdcsGuard(w[0].body, w[1].body) then
      var i0 := AdcsHead(w[0].body);
      Some(Inst(R4(ADCS, i0.rd, i0.rs1, i0.rs2, w[1].body.rd), Length(w, 2)))
    else None
  }

  function FuseSub(version: nat, w: seq<RawInst>): Option<Inst>
    requires |w| > 0 && IsR(w[0].body, SUB)
  {
    if |w| >= 5 && SbbGuard(w[0].body, w[1].body, w[2].body, w[3].body, w[4].body) then
      Some(Inst(R4(SBB, w[0].body.rs1, w[0].body.rs2, w[2].body.rs2, w[1].body.rd), Length(w, 5)))
    else if version >= VERSION2 && |w| >= 2 && SbbsGuard(w[0].body, w[1].body) then
      Some(Inst(R4(SBBS, w[0].body.rd, w[0].body.rs1, w[0].body.rs2, w[1].body.rd), Length(w, 2)))
    else None
  }

  function FuseWide(w: seq<RawInst>): Option<Inst>
    requires |w| > 0
  {
    if |w| >= 2 && WideGuard(w[0].body, w[1].body) then
      Some(Inst(R4(WidePartner(w[0].body.rop).value.1, w[0].body.rd, w[0].body.rs1, w[0].body.rs2, w[1].body.rd), Length(w, 2)))
    else None
  }

  /** The jump sum wraps here, and at version 2 it is checked in `FuseAuipc`. */
  function FuseLui(version: nat, w: seq<RawInst>): Option<Inst>
    requires |w| > 0 && w[0].body.U? && w[0].body.uop == LUI
  {
    if |w| < 2 then None
    else
      var h, n := w[0].body, w[1].body;
      if FarJumpGuard(version, h, n) then
        Some(Inst(U(FAR_JUMP_ABS, RA, WrapI32(h.imm + n.imm)), Length(w, 2)))
      else if IsI(n, ADDIW) && n.rs1 == n.rd == h.rd then
        Some(Inst(U(LOAD_IMM, h.rd, WrapI32(h.imm + n.imm)), Length(w, 2)))
      else None
  }

  function FuseAuipc(version: nat, pc: U64, w: seq<RawInst>): Option<Inst>
    requires |w| > 0 && w[0].body.U? && w[0].body.uop == AUIPC
  {
    if |w| < 2 then None
    else
      var h, n := w[0].body, w[1].body;
      if FarJumpGuard(version, h, n) && (version >= VERSION2 ==> FitsI32(h.imm + n.imm)) then
        Some(Inst(U(FAR_JUMP_REL, RA, WrapI32(h.imm + n.imm)), Length(w, 2)))
      else if version >= VERSION2 && IsI(n, ADDI) && n.rs1 == n.rd == h.rd
              && FitsI32(pc) && FitsI32(h.imm + n.imm) && FitsI32(h.imm + n.imm + pc) then
        Some(Inst(U(LOAD_IMM, h.rd, h.imm + n.imm + pc), Length(w, 2)))
      else None
  }

  /** The fused instruction for the code at `pc`, if a rule fires. */
  function Fuse(version: nat, pc: U64, w: seq<RawInst>): Option<Inst>
    requires |w| > 0
  {
    var h := w[0].body;
    if IsR(h, ADD) then FuseAdd(version, w)
    else if IsR(h, SUB) then FuseSub(version, w)
    else if h.R? then FuseWide(w)
    else if h.U? && h.uop == LUI then FuseLui(version, w)
    else if h.U? && h.uop == AUIPC then FuseAuipc(version, pc, w)
    else None
  }

  function DecodeMop(env: Env, m: Memory, pc: U64): Result<Inst>
  {
    match DecodeRaw(env, m, pc)
    case Err(e) => Err(e)
    case Ok(head) =>
      var w := Window(env, m, pc, LOOKAHEAD);
      WindowHead(env, m, pc, LOOKAHEAD);
      var fused := Fuse(env.version, pc, w);
      Ok(if fused.Some? then fused.value else head)
  }

  lemma {:induction false} WindowHead(env: Env, m: Memory, pc: U64, n: nat)
    requires n > 0 && DecodeRaw(env, m, pc).Ok?
    ensures var w := Window(env, m, pc, n); |w| > 0 && w[0] == DecodeRaw(env, m, pc).value
  {
    hide DecodeRaw;
    if n == 1 {
      assert Window(env, m, pc, 0) == [];
    } else {
      WindowHead(env, m, pc, n - 1);
    }
  }
}
