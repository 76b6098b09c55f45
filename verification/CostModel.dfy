/** Estimated cycles per instruction (src/cost_model.rs). */
module CostModel {
  import opened Words
  import opened PagedMemory
  import opened Instructions
  import opened Machine
  import opened Fusion
  import opened FusionRun
  import opened Stepper
  import opened PaidRuns

  /** The table of costs by opcode. */
  function CyclesOf(opcode: nat): (cycles: U64)
    ensures 1 <= cycles <= 500
  {
    if opcode == 0x1f || opcode == 0x20 || opcode == 0x36 then 2
    else if 0x1b <= opcode <= 0x24 || 0x26 <= opcode <= 0x29 || opcode == 0x35 || opcode == 0x37 || opcode == 0x4a then 3
    else if 0x9d <= opcode <= 0xa2 || 0xa7 <= opcode <= 0xab then 3
    else if 0x2a <= opcode <= 0x2e || 0x8e <= opcode <= 0x90 then 5
    else if 0x17 <= opcode <= 0x1a || 0x31 <= opcode <= 0x34 || 0x91 <= opcode <= 0x92 then 32
    else if 0x4d <= opcode <= 0x57 then 4
    else if 0x58 <= opcode <= 0x62 then 3
    else if 0xa3 <= opcode <= 0xa4 then 500
    else 1
  }

  function EstimateCycles(i: Inst): (cycles: U64)
    ensures 1 <= cycles <= 500
  {
    CyclesOf(OpcodeOf(i.body))
  }

  /** Instruction by instruction: what is quick, what goes to memory, multiplies, divides or leaves the machine. */
  lemma {:induction false} CyclesByKind(i: Inst)
    requires !i.body.Alu?
    ensures EstimateCycles(i) == match i.body
      case R(op, _, _, _) => (
        if op in {MUL, MULH, MULHU, MULHSU} then 5 else if op in {DIV, DIVU, REM, REMU} then 32 else 1)
      case R4(op, _, _, _, _) => (
        if op in {WIDE_MUL, WIDE_MULU, WIDE_MULSU} then 5 else if op in {WIDE_DIV, WIDE_DIVU} then 32 else 1)
      case R5(_, _, _, _, _, _) => 1
      case I(op, _, _, _) => if op == JALR then 3 else 1
      case U(op, _, _) => if op in {JAL, FAR_JUMP_REL, FAR_JUMP_ABS} then 3 else 1
      case Load(w, _, _, _, _) => if w == W64 then 2 else 3
      case Store(w, _, _, _) => if w == W64 then 2 else 3
      case Atomic(_, double, _, _, _) => if double then 3 else 4
      case Branch(_, _, _, _) => 3
      case Ecall => 500
      case Ebreak => 500
      case Fence => 1
  {
  }

  function TotalCycles(w: seq<RawInst>, n: nat): nat
    requires n <= |w|
  {
    if n == 0 then 0 else TotalCycles(w, n - 1) + EstimateCycles(w[n - 1])
  }

  lemma {:induction false} AtLeastOneEach(w: seq<RawInst>, n: nat)
    requires n <= |w|
    ensures TotalCycles(w, n) >= n
  {
    if n > 0 { AtLeastOneEach(w, n - 1); }
  }

  lemma {:induction false} TotalOfTwo(w: seq<RawInst>)
    requires |w| >= 2
    ensures TotalCycles(w, 2) == EstimateCycles(w[0]) + EstimateCycles(w[1])
  {
    assert TotalCycles(w, 1) == EstimateCycles(w[0]);
  }

  /** A fused instruction is strictly cheaper than the instructions it stands for. */
  lemma {:induction false} FusionIsCheaper(pc: U64, w: seq<RawInst>)
    requires |w| > 0 && Fuse(VERSION2, pc, w).Some?
    ensures var f := Fuse(VERSION2, pc, w).value;
            2 <= RawCount(f.body) <= |w| && EstimateCycles(f) < TotalCycles(w, RawCount(f.body))
  {
    hide Length, TotalCycles, WrapI32;
    var f := Fuse(VERSION2, pc, w).value;
    AtLeastOneEach(w, RawCount(f.body));
    TotalOfTwo(w);
  }

  // ---------------------------------------------------------------- whole runs

  /** The machine charges the estimated cycles. */
  ghost predicate Estimated(env: Env) { forall i :: env.cost(i) == EstimateCycles(i) }

  lemma {:induction false} WindowCode(env: Env, m: Memory, pc: U64, w: seq<RawInst>, i: nat)
    requires i < |w| && IsCode(env, m, pc, w)
    ensures pc + Length(w, i) < TWO64 && DecodeRaw(env, m, pc + Length(w, i)) == Ok(w[i])
    ensures Length(w, 0) == 0
  {
    hide DecodeRaw;
    assert CodeAt(env, m, pc, w, i);
  }

  /** What is due for an instruction that does not go to the host is its cost. */
  lemma {:induction false} PlainDue(env: Env, mop: bool, s: State)
    requires var d := Decode(env, mop, s.mem, s.pc); d.Ok? && !d.value.body.Ecall? && !d.value.body.Ebreak?
    ensures TurnDue(env, mop, s) == env.cost(Decode(env, mop, s.mem, s.pc).value)
  {
    hide Execute, Decode;
    PlainExecute(env, Decode(env, mop, s.mem, s.pc).value, Full(s).(resetSignal := false), 0, U64_MAX);
  }

  ghost function TotalCost(env: Env, w: seq<RawInst>, n: nat): nat
    requires n <= |w|
  {
    if n == 0 then 0 else TotalCost(env, w, n - 1) + env.cost(w[n - 1])
  }

  lemma {:induction false} EstimatedTotal(env: Env, w: seq<RawInst>, n: nat)
    requires Estimated(env) && n <= |w|
    ensures TotalCost(env, w, n) == TotalCycles(w, n)
  {
    hide EstimateCycles;
    if n > 0 { EstimatedTotal(env, w, n - 1); }
  }

  /** What is due for the first `k` instructions of straight-line code. */
  lemma {:induction false} DueOfCode(env: Env, s: State, w: seq<RawInst>, k: nat)
    requires s.running && 0 < k <= |w| && IsCode(env, s.mem, s.pc, w) && RegisterOps(w, k - 1)
    requires !w[k - 1].body.Ecall? && !w[k - 1].body.Ebreak?
    ensures Due(env, false, s, k) == TotalCost(env, w, k)
    decreases k
  {
    hide RunRaw, FreeTurns, FreeTurn, IsCode, RegisterRun, Due, DecodeRaw, TurnDue;
    WindowCode(env, s.mem, s.pc, w, k - 1);
    if k == 1 {
      DueOne(env, false, s);
      PlainDue(env, false, s);
      assert TotalCost(env, w, 0) == 0;
    } else {
      DueOfCode(env, s, w, k - 1);
      DueSum(env, false, s, k - 1, 1);
      StepsAreTurns(env, s, w, k - 1);
      StraightCode(env, Ready(s), w, k - 1);
      var s1 := RunRaw(env, Ready(s), k - 1).value;
      DueOne(env, false, s1);
      PlainDue(env, false, s1);
    }
  }

  /** The last of the instructions that are fused does not go to the host either, nor does the fused one. */
  lemma {:induction false} FusedIsPlain(pc: U64, w: seq<RawInst>)
    requires |w| > 0 && Fuse(VERSION2, pc, w).Some?
    ensures var f := Fuse(VERSION2, pc, w).value;
            && 2 <= RawCount(f.body) <= |w| && !f.body.Ecall? && !f.body.Ebreak?
            && !w[RawCount(f.body) - 1].body.Ecall? && !w[RawCount(f.body) - 1].body.Ebreak?
  {
    hide Length, WrapI32;
  }

  /** The turn with fusion has less to pay than the turns without it. */
  lemma {:induction false} FusedTurnIsCheaper(env: Env, s: State)
    requires s.running && Estimated(env) && env.version >= VERSION2
    ensures TurnDue(env, true, s) <= Due(env, false, s, FusedCount(env, s))
  {
    hide DecodeRaw, Window, Fuse, Due, EstimateCycles, IsCode, RegisterOps, TotalCycles, Execute, RawCount;
    DueOne(env, false, s);
    if DecodeRaw(env, s.mem, s.pc).Ok? {
      var w := Window(env, s.mem, s.pc, LOOKAHEAD);
      WindowHead(env, s.mem, s.pc, LOOKAHEAD);
      LaterVersionsFuseAlike(env.version, s.pc, w);
      if Fuse(VERSION2, s.pc, w).Some? {
        FusedShape(s.pc, w);
        FusedIsPlain(s.pc, w);
        WindowIsCode(env, s.mem, s.pc, LOOKAHEAD);
        FusionIsCheaper(s.pc, w);
        DueOfCode(env, s, w, FusedCount(env, s));
        EstimatedTotal(env, w, FusedCount(env, s));
        PlainDue(env, true, s);
      }
    }
  }

  /** So has a whole run. */
  lemma {:induction false} LessDue(env: Env, s: State, n: nat)
    requires Estimated(env) && env.version >= VERSION2 && FreeOfGaps(env, s, n)
    ensures Due(env, true, s, n) <= Due(env, false, s, RawTurns(env, s, n))
    decreases n
  {
    hide FreeTurn, TurnDue, FusedCount, GapFree, Estimated;
    if n > 0 && s.running {
      FusedTurnIsTurns(env, s);
      FusedTurnIsCheaper(env, s);
      var r := FreeTurn(env, true, s);
      if r.Ok? {
        LessDue(env, r.value, n - 1);
        DueSum(env, false, s, FusedCount(env, s), RawTurns(env, r.value, n - 1));
      }
    }
  }

  /** Fusion never makes a run dearer: with the estimated costs the machine has spent at most what it spends without. */
  lemma {:induction false} FusedRunIsCheaper(env: Env, s: State, n: nat, limit: U64)
    requires Estimated(env) && ChargingHost(env) && env.version >= VERSION2 && GapFreeRun(env, s, n)
    requires s.cycles <= s.maxCycles && s.cycles <= limit
    requires Turns(env, true, s, n).Ok? && Turns(env, false, s.(maxCycles := limit), RawTurns(env, s, n)).Ok?
    ensures var fused, raw := Turns(env, true, s, n).value, Turns(env, false, s.(maxCycles := limit), RawTurns(env, s, n)).value;
            SameButCycles(fused, raw) && fused.cycles <= raw.cycles
  {
    hide Turns, FreeTurns, GapFreeRun, FreeOfGaps, RawTurns, ChargingHost, BlindHost, Due, Estimated;
    var t := s.(maxCycles := limit);
    assert t == Purse(s, s.cycles, limit);
    ChargingIsBlind(env);
    FreeOfAllGaps(env, s, n);
    LessDue(env, s, n);
    FusionPays(env, s, n, s.cycles, limit);
    PaysExactly(env, true, s, n);
  }

  /** A run that ends or fails within its limit ends or fails alike with fusion, within the same limit, for no more cycles. */
  lemma {:induction false} FusedEndsInTime(env: Env, s: State, n: nat)
    requires Estimated(env) && ChargingHost(env) && env.version >= VERSION2 && GapFreeRun(env, s, n) && s.cycles <= s.maxCycles
    requires var r := Turns(env, false, s, n); !OutOfCycles(r) && (r.Err? || !r.value.running)
    ensures var raw, fused := Turns(env, false, s, n), Turns(env, true, s, n);
            SameOutcome(raw, fused) && (raw.Ok? ==> fused.value.cycles <= raw.value.cycles <= s.maxCycles == fused.value.maxCycles)
  {
    hide Turns, FreeTurns, GapFreeRun, FreeOfGaps, RawTurns, ChargingHost, BlindHost, Due, Estimated;
    PaysExactly(env, false, s, n);
    ChargingIsBlind(env);
    var j := FreeOfGapsUntil(env, s, n);
    LessDue(env, s, j);
    NeverMoreDue(env, s, n, RawTurns(env, s, j));
    OneFailure(env, s, n, RawTurns(env, s, j));
    FreeSimulates(env, s, j);
    PaysExactly(env, true, s, j);
    FreeUnfused(env, s, n);
  }

  /** A run that has ended does not fail, and one that fails fails in one way. */
  lemma {:induction false} OneFailure(env: Env, s: State, n: nat, k: nat)
    requires var r := FreeTurns(env, false, s, n); r.Err? || !r.value.running
    ensures FreeTurns(env, false, s, k).Err? ==> FreeTurns(env, false, s, k) == FreeTurns(env, false, s, n)
  {
    hide FreeTurns;
    var r := FreeTurns(env, false, s, n);
    if k < n {
      FreeSum(env, false, s, k, n - k);
    } else {
      FreeSum(env, false, s, n, k - n);
      if r.Ok? { FreeStopped(env, false, r.value, k - n); }
    }
  }

  /** Nothing is due after the end of a run. */
  lemma {:induction false} NeverMoreDue(env: Env, s: State, n: nat, k: nat)
    requires var r := FreeTurns(env, false, s, n); r.Err? || !r.value.running
    ensures Due(env, false, s, k) <= Due(env, false, s, n)
  {
    hide FreeTurns, Due;
    var r := FreeTurns(env, false, s, n);
    if k < n {
      DueSum(env, false, s, k, n - k);
    } else {
      DueSum(env, false, s, n, k - n);
      if r.Ok? { NothingDue(env, r.value, k - n); }
    }
  }

  lemma {:induction false} NothingDue(env: Env, s: State, n: nat)
    requires !s.running
    ensures Due(env, false, s, n) == 0
  {
  }
}
