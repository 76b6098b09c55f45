/**
 What the fusing decoder makes of code in memory, rule by rule: assembly listings on the one side, the decoded
 instruction on the other, with the conditions on registers and immediates (src/decoder.rs, version 2 or later).
 */
module FusedDecoding {
  import opened Words
  import opened PagedMemory
  import opened Instructions
  import opened Machine
  import opened Fusion
  import opened FusionRun
  import opened Stepper
  import opened PaidRuns
  import opened CostModel

  // ---------------------------------------------------------------- what the decoder sees

  /** Code that is in memory is what the rules look at. */
  lemma {:induction false} WindowStarts(env: Env, m: Memory, pc: U64, w: seq<RawInst>, n: nat)
    requires IsCode(env, m, pc, w) && n <= |w|
    ensures Window(env, m, pc, n) == w[..n] && Length(w[..n], n) == Length(w, n)
  {
    hide DecodeRaw, IsCode, Window;
    if n == 0 {
      NoWindow(env, m, pc);
    } else {
      WindowStarts(env, m, pc, w, n - 1);
      CodeIsThere(env, m, pc, w, n - 1);
      assert w[..n] == w[..n - 1] + [w[n - 1]];
      LengthOfPrefix(w[..n - 1], w[n - 1], n - 1);
      WindowStep(env, m, pc, n, w[..n - 1], w[n - 1]);
    }
  }

  lemma {:induction false} NoWindow(env: Env, m: Memory, pc: U64)
    ensures Window(env, m, pc, 0) == []
  {
  }

  lemma {:induction false} WindowStep(env: Env, m: Memory, pc: U64, n: nat, v: seq<RawInst>, i: RawInst)
    requires n > 0 && |v| == n - 1 && Window(env, m, pc, n - 1) == v
    requires pc + Length(v, n - 1) < TWO64 && DecodeRaw(env, m, pc + Length(v, n - 1)) == Ok(i)
    ensures Window(env, m, pc, n) == v + [i]
  {
    hide DecodeRaw, Length;
  }

  lemma {:induction false} CodeIsThere(env: Env, m: Memory, pc: U64, w: seq<RawInst>, i: nat)
    requires i < |w| && IsCode(env, m, pc, w)
    ensures pc + Length(w, i) < TWO63 && DecodeRaw(env, m, pc + Length(w, i)) == Ok(w[i])
  {
    hide DecodeRaw;
    assert CodeAt(env, m, pc, w, i);
  }

  /** A wider window starts with the narrower one. */
  lemma {:induction false} WindowGrows(env: Env, m: Memory, pc: U64, n: nat, k: nat)
    requires n <= k
    ensures var v, w := Window(env, m, pc, n), Window(env, m, pc, k); |v| <= |w| && w[..|v|] == v && (|v| < n ==> w == v)
    decreases k
  {
    hide DecodeRaw, Length;
    if n < k { WindowGrows(env, m, pc, n, k - 1); }
  }

  /** The code and the lengths of its beginnings, as the rules see them. */
  lemma {:induction false} RulesSee(env: Env, m: Memory, pc: U64, w: seq<RawInst>)
    requires IsCode(env, m, pc, w) && 0 < |w| <= LOOKAHEAD
    ensures var v := Window(env, m, pc, LOOKAHEAD);
            && |w| <= |v| && v[..|w|] == w && DecodeRaw(env, m, pc) == Ok(w[0])
            && Length(v, |w|) == Length(w, |w|)
  {
    hide DecodeRaw, Window, IsCode;
    WindowStarts(env, m, pc, w, |w|);
    assert w[..|w|] == w;
    WindowGrows(env, m, pc, |w|, LOOKAHEAD);
    CodeIsThere(env, m, pc, w, 0);
    assert Length(w, 0) == 0;
    LengthOfStart(Window(env, m, pc, LOOKAHEAD), w, |w|);
  }

  lemma {:induction false} LengthOfStart(v: seq<RawInst>, w: seq<RawInst>, n: nat)
    requires n <= |w| <= |v| && v[..|w|] == w
    ensures Length(v, n) == Length(w, n)
  {
    if n > 0 { LengthOfStart(v, w, n - 1); }
  }

  predicate IsLen(len: int) { len == 2 || len == 4 }

  /** Two instructions in memory. */
  ghost predicate Pair(env: Env, m: Memory, pc: U64, a: Body, b: Body, len: Len, len': Len) {
    IsLen(len) && IsLen(len') && IsCode(env, m, pc, [Inst(a, len), Inst(b, len')])
  }

  lemma {:induction false} PairSeen(env: Env, m: Memory, pc: U64, a: Body, b: Body, len: Len, len': Len)
    requires Pair(env, m, pc, a, b, len, len')
    ensures var v := Window(env, m, pc, LOOKAHEAD);
            && |v| >= 2 && v[0] == Inst(a, len) && v[1] == Inst(b, len') && Length(v, 2) == len + len'
            && DecodeRaw(env, m, pc) == Ok(Inst(a, len))
  {
    hide DecodeRaw, Window, IsCode;
    var w: seq<RawInst> := [Inst(a, len), Inst(b, len')];
    RulesSee(env, m, pc, w);
    var v := Window(env, m, pc, LOOKAHEAD);
    assert v[0] == v[..2][0] && v[1] == v[..2][1];
    assert Length(w, 1) == len && Length(w, 2) == len + len';
  }

  // ---------------------------------------------------------------- products and divisions

  /** An instruction, the one that computes the other half of its result, and the fusion of both. */
  predicate Halves(op: ROp, other: ROp, wide: R4Op) {
    || (op == MULH && other == MUL && wide == WIDE_MUL)
    || (op == MULHU && other == MUL && wide == WIDE_MULU)
    || (op == MULHSU && other == MUL && wide == WIDE_MULSU)
    || (op == DIV && other == REM && wide == WIDE_DIV)
    || (op == DIVU && other == REMU && wide == WIDE_DIVU)
  }

  /** They are fused exactly when both read the same registers and the first overwrites neither of them nor its own result. */
  lemma {:induction false} WidePair(env: Env, m: Memory, pc: U64, op: ROp, other: ROp, wide: R4Op, rd: Reg, rs1: Reg, rs2: Reg,
                                    rd': Reg, rs1': Reg, rs2': Reg, len: Len, len': Len)
    requires Halves(op, other, wide) && Pair(env, m, pc, R(op, rd, rs1, rs2), R(other, rd', rs1', rs2'), len, len')
    ensures Decode(env, true, m, pc) ==
            Ok(if rs1' == rs1 && rs2' == rs2 && rd != rs1 && rd != rs2 && rd != rd'
               then Inst(R4(wide, rd, rs1, rs2, rd'), len + len') else Inst(R(op, rd, rs1, rs2), len))
  {
    hide FuseAdd, FuseSub, FuseLui, FuseAuipc, DecodeRaw, Window, IsCode, Length, Pair;
    PairSeen(env, m, pc, R(op, rd, rs1, rs2), R(other, rd', rs1', rs2'), len, len');
  }

  // ---------------------------------------------------------------- constants and far jumps

  /** LUI and JALR through the return address register. */
  lemma {:induction false} LuiJalr(env: Env, m: Memory, pc: U64, rd: Reg, a: I32, rd': Reg, rs1: Reg, b: I32, len: Len, len': Len)
    requires env.version >= 2 && Pair(env, m, pc, U(LUI, rd, a), I(JALR, rd', rs1, b), len, len')
    ensures Decode(env, true, m, pc) ==
            Ok(if rd == rd' == rs1 == RA then Inst(U(FAR_JUMP_ABS, RA, WrapI32(a + b)), len + len') else Inst(U(LUI, rd, a), len))
  {
    hide FuseAdd, FuseSub, FuseWide, FuseAuipc, DecodeRaw, Window, IsCode, Length, WrapI32, Pair;
    PairSeen(env, m, pc, U(LUI, rd, a), I(JALR, rd', rs1, b), len, len');
  }

  lemma {:induction false} LuiAddiw(env: Env, m: Memory, pc: U64, rd: Reg, a: I32, rd': Reg, rs1: Reg, b: I32, len: Len, len': Len)
    requires Pair(env, m, pc, U(LUI, rd, a), I(ADDIW, rd', rs1, b), len, len')
    ensures Decode(env, true, m, pc) ==
            Ok(if rd == rd' == rs1 then Inst(U(LOAD_IMM, rd, WrapI32(a + b)), len + len') else Inst(U(LUI, rd, a), len))
  {
    hide FuseAdd, FuseSub, FuseWide, FuseAuipc, DecodeRaw, Window, IsCode, Length, WrapI32, Pair;
    PairSeen(env, m, pc, U(LUI, rd, a), I(ADDIW, rd', rs1, b), len, len');
  }

  /** AUIPC and JALR through the return address register, if the sum of the offsets is a 32-bit one. */
  lemma {:induction false} AuipcJalr(env: Env, m: Memory, pc: U64, rd: Reg, a: I32, rd': Reg, rs1: Reg, b: I32, len: Len, len': Len)
    requires env.version >= 2 && Pair(env, m, pc, U(AUIPC, rd, a), I(JALR, rd', rs1, b), len, len')
    ensures Decode(env, true, m, pc) ==
            Ok(if rd == rd' == rs1 == RA && -TWO31 <= a + b < TWO31 then Inst(U(FAR_JUMP_REL, RA, a + b), len + len')
               else Inst(U(AUIPC, rd, a), len))
  {
    hide FuseAdd, FuseSub, FuseWide, FuseLui, DecodeRaw, Window, IsCode, Length, Pair;
    PairSeen(env, m, pc, U(AUIPC, rd, a), I(JALR, rd', rs1, b), len, len');
  }

  /** AUIPC and ADDI give an address, if all of it stays within 31 bits and a sign. */
  lemma {:induction false} AuipcAddi(env: Env, m: Memory, pc: U64, rd: Reg, a: I32, rd': Reg, rs1: Reg, b: I32, len: Len, len': Len)
    requires env.version >= 2 && Pair(env, m, pc, U(AUIPC, rd, a), I(ADDI, rd', rs1, b), len, len')
    ensures Decode(env, true, m, pc) ==
            Ok(if rd == rd' == rs1 && pc < TWO31 && -TWO31 <= a + b < TWO31 && -TWO31 <= a + b + pc < TWO31
               then Inst(U(LOAD_IMM, rd, a + b + pc), len + len') else Inst(U(AUIPC, rd, a), len))
  {
    hide FuseAdd, FuseSub, FuseWide, FuseLui, DecodeRaw, Window, IsCode, Length, Pair;
    PairSeen(env, m, pc, U(AUIPC, rd, a), I(ADDI, rd', rs1, b), len, len');
  }

  // ---------------------------------------------------------------- differences

  /** SUB and SLTU of the same operands; where SUB overwrites its second one, a longer rule may apply. */
  lemma {:induction false} SubSltu(env: Env, m: Memory, pc: U64, r0: Reg, r1: Reg, r2: Reg, r3: Reg, rs1: Reg, rs2: Reg,
                                   len: Len, len': Len)
    requires env.version >= 2 && Pair(env, m, pc, R(SUB, r0, r1, r2), R(SLTU, r3, rs1, rs2), len, len') && r0 != r2
    ensures Decode(env, true, m, pc) ==
            Ok(if rs1 == r1 && rs2 == r2 && r0 != r1 then Inst(R4(SBBS, r0, r1, r2, r3), len + len') else Inst(R(SUB, r0, r1, r2), len))
  {
    hide FuseAdd, FuseWide, FuseLui, FuseAuipc, DecodeRaw, Window, IsCode, Length, Pair;
    PairSeen(env, m, pc, R(SUB, r0, r1, r2), R(SLTU, r3, rs1, rs2), len, len');
  }

  predicate Distinct3(a: Reg, b: Reg, c: Reg) { a != b && a != c && b != c }

  predicate NonZero3(a: Reg, b: Reg, c: Reg) { a != 0 && b != 0 && c != 0 }

  /** Subtraction with borrow: minuend d, subtrahend x, borrow c, scratch b; `t` is the operand nobody looks at. */
  function SbbListing(d: Reg, x: Reg, c: Reg, b: Reg, t: Reg): seq<Body> {
    [R(SUB, x, d, x), R(SLTU, b, d, t), R(SUB, d, x, c), R(SLTU, c, x, d), R(OR, x, c, b)]
  }

  /** Addition with carry: summands d and x, carry c. */
  function AdcListing(d: Reg, x: Reg, c: Reg): seq<Body> {
    [R(ADD, d, d, x), R(SLTU, x, d, x), R(ADD, d, d, c), R(SLTU, c, d, c), R(OR, x, x, c)]
  }

  /** A listing in memory, with the lengths of its instructions left open. */
  ghost predicate InMemory(env: Env, m: Memory, pc: U64, w: seq<RawInst>, listing: seq<Body>) {
    |w| == |listing| && IsCode(env, m, pc, w) && forall i :: 0 <= i < |w| ==> w[i].body == listing[i]
  }

  lemma {:induction false} FiveSeen(env: Env, m: Memory, pc: U64, w: seq<RawInst>)
    requires IsCode(env, m, pc, w) && |w| == 5
    ensures Window(env, m, pc, LOOKAHEAD) == w && DecodeRaw(env, m, pc) == Ok(w[0])
  {
    hide DecodeRaw, Window, IsCode, Length;
    RulesSee(env, m, pc, w);
    var v := Window(env, m, pc, LOOKAHEAD);
    assert v[..5] == v;
  }

  lemma {:induction false} SbbFive(env: Env, m: Memory, pc: U64, w: seq<RawInst>, d: Reg, x: Reg, c: Reg, b: Reg, t: Reg)
    requires InMemory(env, m, pc, w, SbbListing(d, x, c, b, t))
    requires Distinct3(d, x, c) && Distinct3(d, x, b) && c != b && NonZero3(d, x, c) && b != 0
    ensures Decode(env, true, m, pc) == Ok(Inst(R4(SBB, d, x, c, b), Length(w, 5)))
  {
    hide FuseAdd, FuseWide, FuseLui, FuseAuipc, DecodeRaw, Window, IsCode, Length;
    FiveSeen(env, m, pc, w);
  }

  // ---------------------------------------------------------------- sums

  lemma {:induction false} AdcFive(env: Env, m: Memory, pc: U64, w: seq<RawInst>, d: Reg, x: Reg, c: Reg)
    requires InMemory(env, m, pc, w, AdcListing(d, x, c)) && Distinct3(d, x, c) && NonZero3(d, x, c)
    ensures Decode(env, true, m, pc) == Ok(Inst(R(ADC, d, x, c), Length(w, 5)))
  {
    hide FuseSub, FuseWide, FuseLui, FuseAuipc, DecodeRaw, Window, IsCode, Length;
    FiveSeen(env, m, pc, w);
  }

  lemma {:induction false} ThreeSeen(env: Env, m: Memory, pc: U64, w: seq<RawInst>)
    requires IsCode(env, m, pc, w) && |w| == 3
    ensures var v := Window(env, m, pc, LOOKAHEAD);
            && |v| >= 3 && v[0] == w[0] && v[1] == w[1] && v[2] == w[2] && Length(v, 3) == Length(w, 3)
            && DecodeRaw(env, m, pc) == Ok(w[0])
  {
    hide DecodeRaw, Window, IsCode, Length;
    RulesSee(env, m, pc, w);
    var v := Window(env, m, pc, LOOKAHEAD);
    assert v[0] == v[..3][0] && v[1] == v[..3][1] && v[2] == v[..3][2];
  }

  /**
   A sum, its carry and the carry added to a third operand: which of the three forms it is depends on where the carry
   goes; none of them applies if the sum or the carry goes to x0, or overwrites what is still needed.
   */
  lemma {:induction false} AddSltuAdd(env: Env, m: Memory, pc: U64, w: seq<RawInst>, r0: Reg, r1: Reg, r2: Reg, c: Reg, r3: Reg, r4: Reg)
    requires env.version >= 2 && InMemory(env, m, pc, w, [R(ADD, r0, r1, r2), R(SLTU, c, r0, r1), R(ADD, r3, c, r4)])
    requires r0 != r1 && r0 != r4 && c != r4 && r0 != 0 && c != 0
    ensures r2 == r0 ==> Decode(env, true, m, pc) == Ok(Inst(R5(ADD3A, r0, r1, c, r3, r4), Length(w, 3)))
    ensures r2 != r0 && c == r1 ==> Decode(env, true, m, pc) == Ok(Inst(R5(ADD3B, r0, r1, r2, r3, r4), Length(w, 3)))
    ensures r2 != r0 && c != r1 && r3 == c ==> Decode(env, true, m, pc) == Ok(Inst(R5(ADD3C, r0, r1, r2, c, r4), Length(w, 3)))
  {
    hide FuseSub, FuseWide, FuseLui, FuseAuipc, DecodeRaw, Window, IsCode, Length;
    ThreeSeen(env, m, pc, w);
  }

  /**
   ADD and SLTU, with no third addition behind them: fused exactly when SLTU compares the sum with the operand that was
   not overwritten and the sum does not go to x0. The operands may be exchanged only if the sum overwrites the first.
   */
  lemma {:induction false} AddSltu(env: Env, m: Memory, pc: U64, r0: Reg, r1: Reg, r2: Reg, r3: Reg, rs1: Reg, rs2: Reg, len: Len, len': Len)
    requires env.version >= 2 && Pair(env, m, pc, R(ADD, r0, r1, r2), R(SLTU, r3, rs1, rs2), len, len')
    requires pc + len + len' < TWO64 && FollowedByNoAdd(env, m, pc, len + len')
    ensures Decode(env, true, m, pc) ==
            Ok(if r0 != 0 && rs1 == r0 && r0 != r1 && rs2 == r1 then Inst(R4(ADCS, r0, r1, r2, r3), len + len')
               else if r0 != 0 && rs1 == r0 && r0 == r1 && r0 != r2 && rs2 == r2 then Inst(R4(ADCS, r0, r2, r1, r3), len + len')
               else Inst(R(ADD, r0, r1, r2), len))
  {
    hide FuseSub, FuseWide, FuseLui, FuseAuipc, DecodeRaw, Window, IsCode, Length, Pair;
    var a, b := R(ADD, r0, r1, r2), R(SLTU, r3, rs1, rs2);
    PairSeen(env, m, pc, a, b, len, len');
    ThirdSeen(env, m, pc, a, b, len, len');
  }

  ghost predicate FollowedByNoAdd(env: Env, m: Memory, pc: U64, length: nat)
    requires pc + length < TWO64
  {
    var next := DecodeRaw(env, m, pc + length); next.Ok? ==> !(next.value.body.R? && next.value.body.rop == ADD)
  }

  lemma {:induction false} ThirdSeen(env: Env, m: Memory, pc: U64, a: Body, b: Body, len: Len, len': Len)
    requires Pair(env, m, pc, a, b, len, len') && pc + len + len' < TWO64
    ensures var v := Window(env, m, pc, LOOKAHEAD); |v| > 2 ==> DecodeRaw(env, m, pc + len + len') == Ok(v[2])
  {
    hide DecodeRaw, IsCode, Window;
    PairSeen(env, m, pc, a, b, len, len');
    var v := Window(env, m, pc, LOOKAHEAD);
    if |v| > 2 {
      WindowIsCode(env, m, pc, LOOKAHEAD);
      CodeIsThere(env, m, pc, v, 2);
    }
  }

  // ---------------------------------------------------------------- everything else

  /** Heads of other opcodes are never fused, nor is an instruction with nothing to decode behind it. */
  lemma {:induction false} NotFused(env: Env, m: Memory, pc: U64, i: RawInst)
    requires DecodeRaw(env, m, pc) == Ok(i)
    requires var b := i.body;
             || !(b.R? || b.U?) || (b.R? && b.rop in {SLTU, OR, MUL, REM, REMU, ADC}) || (b.U? && b.uop != LUI && b.uop != AUIPC)
             || |Window(env, m, pc, LOOKAHEAD)| == 1
    ensures Decode(env, true, m, pc) == Ok(i)
  {
    hide DecodeRaw, Window;
    WindowHead(env, m, pc, LOOKAHEAD);
  }

  // ---------------------------------------------------------------- and nothing more

  /** The listings a fused instruction stands for. */
  ghost predicate StandsFor(pc: U64, f: Body, code: seq<Body>) {
    match f
    case R(_, d, x, c) => f.rop == ADC && code == AdcListing(d, x, c) && Distinct3(d, x, c) && NonZero3(d, x, c)
    case R4(op, r0, r1, r2, r3) => (match op
      case SBB =>
        && (exists t: Reg :: code == SbbListing(r0, r1, r2, r3, t))
        && Distinct3(r0, r1, r2) && Distinct3(r0, r1, r3) && r2 != r3 && NonZero3(r0, r1, r2) && r3 != 0
      case ADCS =>
        && (code == [R(ADD, r0, r1, r2), R(SLTU, r3, r0, r1)] || (r2 == r0 && code == [R(ADD, r0, r0, r1), R(SLTU, r3, r0, r1)]))
        && r0 != r1 && r0 != 0
      case SBBS => code == [R(SUB, r0, r1, r2), R(SLTU, r3, r1, r2)] && r0 != r1 && r0 != r2
      case _ => (exists op', other :: Halves(op', other, op) && code == [R(op', r0, r1, r2), R(other, r3, r1, r2)])
                && r0 != r1 && r0 != r2 && r0 != r3)
    case R5(op, r0, r1, r2, r3, r4) => (match op
      case ADD3A => code == [R(ADD, r0, r1, r0), R(SLTU, r2, r0, r1), R(ADD, r3, r2, r4)] && r0 != r1 && r0 != r4 && r2 != r4 && r0 != 0 && r2 != 0
      case ADD3B => code == [R(ADD, r0, r1, r2), R(SLTU, r1, r0, r1), R(ADD, r3, r1, r4)] && r0 != r1 && r0 != r4 && r1 != r4 && r0 != 0 && r1 != 0
      case ADD3C => code == [R(ADD, r0, r1, r2), R(SLTU, r3, r0, r1), R(ADD, r3, r3, r4)] && r0 != r1 && r0 != r4 && r3 != r4 && r0 != 0 && r3 != 0)
    case U(op, rd, imm) => |code| == 2 && code[0].U? && code[1].I? && code[0].rd == code[1].rd == code[1].rs1 == rd && (match op
      case FAR_JUMP_ABS => rd == RA && code[0].uop == LUI && code[1].iop == JALR && imm == WrapI32(code[0].imm + code[1].imm)
      case FAR_JUMP_REL => rd == RA && code[0].uop == AUIPC && code[1].iop == JALR && imm == code[0].imm + code[1].imm
      case LOAD_IMM =>
        || (code[0].uop == LUI && code[1].iop == ADDIW && imm == WrapI32(code[0].imm + code[1].imm))
        || (code[0].uop == AUIPC && code[1].iop == ADDI && imm == code[0].imm + code[1].imm + pc && pc < TWO31)
      case _ => false)
    case _ => false
  }

  function Bodies(w: seq<RawInst>, n: nat): seq<Body>
    requires n <= |w|
  {
    seq(n, i requires 0 <= i < n => w[i].body)
  }

  /** Whatever the decoder gives other than the instruction itself stands for the code it was read from. */
  lemma {:induction false} OnlyListings(env: Env, m: Memory, pc: U64, f: Inst)
    requires env.version >= 2 && Decode(env, true, m, pc) == Ok(f) && DecodeRaw(env, m, pc) != Ok(f)
    ensures var v, n := Window(env, m, pc, LOOKAHEAD), RawCount(f.body);
            n <= |v| && f.len == Length(v, n) && StandsFor(pc, f.body, Bodies(v, n))
  {
    hide DecodeRaw, Window, StandsFor, Fuse, RawCount, Length;
    var v := Window(env, m, pc, LOOKAHEAD);
    WindowHead(env, m, pc, LOOKAHEAD);
    LaterVersionsFuseAlike(env.version, pc, v);
    FusedLengths(pc, v, f);
    FusedListing(pc, v, f);
  }

  lemma {:induction false} FusedLengths(pc: U64, v: seq<RawInst>, f: Inst)
    requires |v| > 0 && Fuse(VERSION2, pc, v) == Some(f)
    ensures RawCount(f.body) <= |v| && f.len == Length(v, RawCount(f.body))
  {
    hide Length, WrapI32;
  }

  lemma {:induction false} FusedListing(pc: U64, v: seq<RawInst>, f: Inst)
    requires |v| > 0 && Fuse(VERSION2, pc, v) == Some(f) && RawCount(f.body) <= |v|
    ensures StandsFor(pc, f.body, Bodies(v, RawCount(f.body)))
  {
    var h := v[0].body;
    if IsR(h, ADD) {
      hide FuseSub, FuseWide, FuseLui, FuseAuipc, Length;
      SumListing(v, f, pc);
    } else if IsR(h, SUB) {
      hide FuseAdd, FuseWide, FuseLui, FuseAuipc, Length;
      DifferenceListing(v, f, pc);
    } else if h.R? {
      hide FuseAdd, FuseSub, FuseLui, FuseAuipc, Length;
      WideListing(v, f, pc);
    } else {
      hide FuseAdd, FuseSub, FuseWide, Length, WrapI32;
    }
  }

  lemma {:induction false} SumListing(v: seq<RawInst>, f: Inst, pc: U64)
    requires |v| > 0 && IsR(v[0].body, ADD) && FuseAdd(VERSION2, v) == Some(f) && RawCount(f.body) <= |v|
    ensures StandsFor(pc, f.body, Bodies(v, RawCount(f.body)))
  {
    hide Length;
    if f.body.R? {
      assert Bodies(v, 5) == AdcListing(f.body.rd, f.body.rs1, f.body.rs2);
    }
  }

  lemma {:induction false} DifferenceListing(v: seq<RawInst>, f: Inst, pc: U64)
    requires |v| > 0 && IsR(v[0].body, SUB) && FuseSub(VERSION2, v) == Some(f) && RawCount(f.body) <= |v|
    ensures StandsFor(pc, f.body, Bodies(v, RawCount(f.body)))
  {
    hide Length;
    if f.body.r4op == SBB {
      assert Bodies(v, 5) == SbbListing(f.body.rd, f.body.rs1, f.body.rs2, f.body.rs3, v[1].body.rs2);
    }
  }

  lemma {:induction false} WideListing(v: seq<RawInst>, f: Inst, pc: U64)
    requires |v| > 0 && v[0].body.R? && FuseWide(v) == Some(f) && RawCount(f.body) <= |v|
    ensures StandsFor(pc, f.body, Bodies(v, RawCount(f.body)))
  {
    hide Length;
    assert Halves(v[0].body.rop, v[1].body.rop, f.body.r4op);
    assert Bodies(v, 2) == [v[0].body, v[1].body];
  }

  // ---------------------------------------------------------------- what they cost

  /** The cycles of a turn that executes a fused instruction. */
  lemma {:induction false} FusedDue(env: Env, s: State, f: Inst)
    requires Estimated(env) && env.version >= 2 && s.running && Decode(env, true, s.mem, s.pc) == Ok(f)
    requires DecodeRaw(env, s.mem, s.pc) != Ok(f)
    ensures Due(env, true, s, 1) == match f.body
      case R4(op, _, _, _, _) => (match op
        case WIDE_MUL => 5 case WIDE_MULU => 5 case WIDE_MULSU => 5 case WIDE_DIV => 32 case WIDE_DIVU => 32 case _ => 1)
      case U(op, _, _) => if op == LOAD_IMM then 1 else 3
      case _ => 1
  {
    hide DecodeRaw, Window, Decode, Due, StandsFor, EstimateCycles, RawCount, Bodies, TurnDue;
    OnlyListings(env, s.mem, s.pc, f);
    FusedKinds(s.pc, f.body, Bodies(Window(env, s.mem, s.pc, LOOKAHEAD), RawCount(f.body)));
    DueOne(env, true, s);
    PlainDue(env, true, s);
    CyclesByKind(f);
  }

  lemma {:induction false} FusedKinds(pc: U64, f: Body, code: seq<Body>)
    requires StandsFor(pc, f, code)
    ensures (f.R? && f.rop == ADC) || f.R4? || f.R5? || (f.U? && (f.uop == LOAD_IMM || f.uop == FAR_JUMP_ABS || f.uop == FAR_JUMP_REL))
  {
  }
}
