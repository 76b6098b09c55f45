/** Small machines on which the laws of fusion and of resuming fail where their conditions fail. */
module Witnesses {
  import opened Words
  import opened PagedMemory
  import opened Instructions
  import opened Machine
  import opened Fusion
  import opened FusionProof
  import opened Stepper
  import opened PaidRuns
  import opened FusionRun
  import opened CostModel
  import Sessions

  // ---------------------------------------------------------------- a page of code

  /** Five instructions of four bytes. */
  predicate FiveWords(code: seq<RawInst>) { |code| == 5 && forall i :: 0 <= i < 5 ==> code[i].len == 4 }

  /** Instruction `j` is encoded as the word 4j + 3. */
  function Factory(code: seq<RawInst>): U32 -> Option<RawInst>
    requires FiveWords(code)
  {
    bits => if bits % 4 == 3 && bits / 4 < 5 then Some(code[bits / 4]) else None
  }

  function CodePage(): Memory {
    Mem(seq(PAGE, a => if a % 4 == 0 && a < 20 then a + 3 else 0), [EXECUTABLE.Or(FREEZED)], U64_MAX)
  }

  function Small(code: seq<RawInst>, cost: Inst -> U64): Env
    requires FiveWords(code)
  {
    Env(VERSION2, [Factory(code)], (_, _, _, _, _) => 0, (_, _, _, _) => 0, _ => Err(InvalidEcall(0)), s => Ok(s), cost)
  }

  function StartOf(regs: Registers): State {
    State(regs, 0, 0, CodePage(), 0, U64_MAX, true, false, 0)
  }

  lemma {:induction false} SmallCharges(code: seq<RawInst>, cost: Inst -> U64)
    requires FiveWords(code)
    ensures ChargingHost(Small(code, cost))
  {
  }

  lemma {:induction false} CodeWord(j: nat)
    requires j < 5
    ensures |CodePage().bytes| == PAGE && Slice(CodePage().bytes, 4 * j, 4) == [4 * j + 3, 0, 0, 0]
  {
  }

  lemma {:induction false} Fetches(m: Memory, pc: U64, bits: Byte)
    requires |m.bytes| == PAGE && m.flags == [EXECUTABLE.Or(FREEZED)] && pc <= PAGE - 4 && bits % 4 == 3
    requires Slice(m.bytes, pc, 4) == [bits, 0, 0, 0]
    ensures DecodeBits(m, pc) == Ok(bits)
  {
    hide LittleEndian, Slice, FetchBits;
    assert PageOf(pc) == LastPage(pc, 4) == 0;
    assert Blocked(m.flags, 0, 0, EXECUTABLE).None?;
    LittleWord(bits);
  }

  lemma {:induction false} LittleWord(b: Byte)
    ensures LittleEndian([b, 0, 0, 0]) == b
  {
    var zeros: seq<Byte> := [0, 0, 0];
    assert [b, 0, 0, 0][1..] == zeros && zeros[1..] == [0, 0] && zeros[1..][1..] == [0];
    assert LittleEndian([0]) == 0 && LittleEndian([0, 0]) == 0;
  }

  lemma {:induction false} Decodes(code: seq<RawInst>, cost: Inst -> U64, j: nat)
    requires FiveWords(code) && j < 5
    ensures DecodeRaw(Small(code, cost), CodePage(), 4 * j) == Ok(code[j])
  {
    hide DecodeBits, Slice;
    CodeWord(j);
    Fetches(CodePage(), 4 * j, 4 * j + 3);
    var env := Small(code, cost);
    assert env.factories[0](4 * j + 3) == Some(code[j]);
  }

  lemma {:induction false} WindowOf(code: seq<RawInst>, cost: Inst -> U64, n: nat)
    requires FiveWords(code) && n <= 5
    ensures Window(Small(code, cost), CodePage(), 0, n) == code[..n] && Length(code[..n], n) == 4 * n
  {
    hide DecodeRaw;
    if n > 0 {
      WindowOf(code, cost, n - 1);
      Decodes(code, cost, n - 1);
      assert code[..n] == code[..n - 1] + [code[n - 1]];
      LengthOfPrefix(code[..n - 1], code[n - 1], n - 1);
    }
  }

  lemma {:induction false} WholeWindow(code: seq<RawInst>, cost: Inst -> U64)
    requires FiveWords(code)
    ensures Window(Small(code, cost), CodePage(), 0, LOOKAHEAD) == code && IsCode(Small(code, cost), CodePage(), 0, code)
    ensures DecodeRaw(Small(code, cost), CodePage(), 0) == Ok(code[0])
  {
    hide Window, IsCode, DecodeRaw;
    WindowOf(code, cost, 5);
    assert code[..5] == code;
    WindowIsCode(Small(code, cost), CodePage(), 0, LOOKAHEAD);
    Decodes(code, cost, 0);
  }

  // ---------------------------------------------------------------- subtraction with borrow

  /** Five instructions the SBB rule fuses; the second source of the second one is free. */
  function SbbCode(t: Reg): (code: seq<RawInst>)
    ensures FiveWords(code)
  {
    [Inst(R(SUB, 6, 5, 6), 4), Inst(R(SLTU, 8, 5, t), 4), Inst(R(SUB, 5, 6, 7), 4), Inst(R(SLTU, 7, 6, 5), 4), Inst(R(OR, 6, 7, 8), 4)]
  }

  lemma {:induction false} SbbFuses(t: Reg, cost: Inst -> U64)
    ensures var w := SbbCode(t);
            && SbbGuard(w[0].body, w[1].body, w[2].body, w[3].body, w[4].body) && RegisterOps(w, 5)
            && Decode(Small(w, cost), true, CodePage(), 0) == Ok(SbbFused(w))
  {
    hide Window, DecodeRaw, Length;
    WholeWindow(SbbCode(t), cost);
  }

  predicate Untouched(r: Result<State>) { r.Ok? && r.value == Full(r.value) }

  /** The two runs of the code, with and without fusion. */
  lemma {:induction false} SbbTurns(t: Reg, regs: Registers, cost: Inst -> U64)
    ensures var env, s := Small(SbbCode(t), cost), StartOf(regs);
            && Untouched(FreeTurns(env, true, s, 1)) && Untouched(FreeTurns(env, false, s, 5))
            && (FreeTurns(env, false, s, 5) == FreeTurns(env, true, s, 1) <==> BorrowRight(regs, 5, 6, t))
  {
    hide Execute, RunRaw, Decode, DecodeRaw, Window, IsCode, FreeTurns, BorrowRight, Length, RegisterEffect, RegisterRun, Small;
    var w := SbbCode(t);
    var env, s := Small(w, cost), StartOf(regs);
    SbbFuses(t, cost);
    WholeWindow(w, cost);
    FreeOne(env, true, s);
    StepsAreTurns(env, s, w, 5);
    StraightCode(env, Ready(s), w, 5);
    ExecuteRegister(env, SbbFused(w), Ready(s));
    SbbRuns(env, Ready(s), w);
  }

  lemma {:induction false} SbbDue(t: Reg, regs: Registers, cost: Inst -> U64)
    ensures var env, s := Small(SbbCode(t), cost), StartOf(regs);
            Due(env, true, s, 1) == cost(SbbFused(SbbCode(t))) && Due(env, false, s, 5) == TotalCost(env, SbbCode(t), 5)
  {
    hide Decode, DecodeRaw, Window, IsCode, Due, TotalCost, Length;
    var w := SbbCode(t);
    var env, s := Small(w, cost), StartOf(regs);
    SbbFuses(t, cost);
    WholeWindow(w, cost);
    DueOne(env, true, s);
    PlainDue(env, true, s);
    DueOfCode(env, s, w, 5);
  }

  /** 0 - 1 with the carry taken from a register that holds 0: fused code reports a borrow, the code itself none. */
  lemma {:induction false} SbbGoesWrong() returns (env: Env, s: State)
    ensures ChargingHost(env) && Estimated(env) && env.version >= VERSION2
    ensures Turns(env, true, s, 1).Ok? && Turns(env, false, s, 5).Ok? && !SameOutcome(Turns(env, true, s, 1), Turns(env, false, s, 5))
  {
    hide FreeTurns, Due, Turns, EstimateCycles, TotalCost, ChargingHost, SbbCode;
    var code := SbbCode(9);
    env, s := Small(code, i => EstimateCycles(i)), StartOf(BorrowWitness(6));
    SmallCharges(code, env.cost);
    SbbTurns(9, s.regs, env.cost);
    SbbDue(9, s.regs, env.cost);
    assert !BorrowRight(s.regs, 5, 6, 9);
    TotalBound(env, code, 5);
    PaysExactly(env, true, s, 1);
    PaysExactly(env, false, s, 5);
  }

  lemma {:induction false} TotalBound(env: Env, w: seq<RawInst>, n: nat)
    requires Estimated(env) && n <= |w|
    ensures TotalCost(env, w, n) <= 500 * n
  {
    hide EstimateCycles;
    if n > 0 { TotalBound(env, w, n - 1); }
  }

  // ---------------------------------------------------------------- code that cannot be paid for

  /** Costs add up: five instructions can be beyond any limit where the fused one is free. */
  lemma {:induction false} NoLimitIsEnough() returns (env: Env, s: State)
    ensures ChargingHost(env) && env.version >= VERSION2 && GapFreeRun(env, s, 1) && RawTurns(env, s, 1) == 5
    ensures Turns(env, true, s, 1).Ok? && forall limit: U64 :: OutOfCycles(Turns(env, false, s.(maxCycles := limit), 5))
  {
    hide FreeTurns, Due, Turns, TotalCost, ChargingHost, SbbCode, Decode, BorrowRight;
    var code := SbbCode(6);
    env, s := Small(code, (i: Inst) => if i.body.R4? then 0 else TWO63), StartOf(BorrowWitness(6));
    SmallCharges(code, env.cost);
    SbbTurns(6, s.regs, env.cost);
    SbbDue(6, s.regs, env.cost);
    BorrowIsRight(s.regs);
    AllDear(env, 5);
    PaysExactly(env, true, s, 1);
    forall limit: U64 ensures OutOfCycles(Turns(env, false, s.(maxCycles := limit), 5)) {
      DueSame(env, false, s, s.(maxCycles := limit), 5);
      PaysExactly(env, false, s.(maxCycles := limit), 5);
    }
    SbbIsGapFree(env, s);
  }

  lemma {:induction false} BorrowIsRight(regs: Registers)
    ensures BorrowRight(regs, 5, 6, 6)
  {
  }

  lemma {:induction false} AllDear(env: Env, n: nat)
    requires n <= 5 && forall i: Inst :: env.cost(i) == if i.body.R4? then 0 else TWO63
    ensures TotalCost(env, SbbCode(6), n) == n * TWO63 && env.cost(SbbFused(SbbCode(6))) == 0
  {
    if n > 0 { AllDear(env, n - 1); }
  }

  lemma {:induction false} SbbIsGapFree(env: Env, s: State)
    requires env == Small(SbbCode(6), env.cost) && s.mem == CodePage() && s.pc == 0 && s.running
    ensures GapFreeRun(env, s, 1) && RawTurns(env, s, 1) == 5
  {
    hide Window, DecodeRaw, Length, BorrowRight, FreeTurn, Turn;
    WholeWindow(SbbCode(6), env.cost);
    SbbFuses(6, env.cost);
    BorrowIsRight(s.regs);
    var r, free := Turn(env, true, s), FreeTurn(env, true, s);
    if r.Ok? { assert GapFreeRun(env, r.value, 0); }
    if free.Ok? { assert RawTurns(env, free.value, 0) == 0; }
  }

  // ---------------------------------------------------------------- a lost exit code

  lemma {:induction false} SbbCompletes(regs: Registers, cost: Inst -> U64)
    ensures Turns(Small(SbbCode(6), cost), true, StartOf(regs), 1).Ok?
  {
    hide FreeTurns, Due, Turns, ChargingHost, SbbCode, BorrowRight, TotalCost;
    var env, s := Small(SbbCode(6), cost), StartOf(regs);
    SmallCharges(SbbCode(6), cost);
    SbbTurns(6, regs, cost);
    SbbDue(6, regs, cost);
    PaysExactly(env, true, s, 1);
  }

  lemma {:induction false} SbbDoesNotExit(env: Env, s: State)
    requires env == Small(SbbCode(6), env.cost) && s.mem == CodePage() && s.pc == 0
    ensures !Exits(env, true, s, 1)
  {
    hide Decode, Turn;
    SbbFuses(6, env.cost);
    var r := Turn(env, true, s);
    if r.Ok? { assert !Exits(env, true, r.value, 0); }
  }

  lemma {:induction false} SmallIgnoresExit(code: seq<RawInst>, cost: Inst -> U64)
    requires FiveWords(code)
    ensures Sessions.HostIgnoresExit(Small(code, cost))
  {
  }

  /** A machine with an exit code from before: without it, as resumed from a snapshot, the next turn leaves another state. */
  lemma {:induction false} ExitCodeLost() returns (env: Env, suspended: State)
    ensures Sessions.HostIgnoresExit(env) && suspended.running && suspended.exitCode == 1
    ensures Turns(env, true, suspended, 1).Ok? && Turns(env, true, suspended.(exitCode := 0), 1) != Turns(env, true, suspended, 1)
  {
    hide Turns, EstimateCycles, SbbCode, Exits, Sessions.HostIgnoresExit, CodePage, BorrowWitness;
    env := Small(SbbCode(6), i => EstimateCycles(i));
    var s := StartOf(BorrowWitness(6));
    suspended := s.(exitCode := 1);
    SbbCompletes(s.regs, env.cost);
    SbbDoesNotExit(env, s);
    SmallIgnoresExit(SbbCode(6), env.cost);
    Sessions.ExitApart(env, true, s, 1, 1);
    assert suspended.(exitCode := 0) == s;
  }
}
