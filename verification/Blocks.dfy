/**
 Basic blocks (src/machine/trace.rs, src/instructions/mod.rs): which instructions end one, why code stays the same
 inside one, and runs of whole blocks against runs of single instructions.
 */
module Blocks {
  import opened Words
  import opened PagedMemory
  import opened Instructions
  import opened Machine
  import opened Fusion
  import opened Decoders
  import opened Stepper

  const TRACE_ITEM_LENGTH: nat := 16

  // ---------------------------------------------------------------- memories with the same code

  /** The same pages are executable, with the same bytes. */
  ghost predicate CodeSame(m: Memory, m': Memory) {
    CodeKept(m, m') && forall p :: 0 <= p < |m.flags| && m'.flags[p].executable ==> m.flags[p].executable
  }

  lemma {:induction false} SelfSame(m: Memory)
    ensures CodeSame(m, m)
  {
  }

  lemma {:induction false} SameTwice(m: Memory, m': Memory, m'': Memory)
    requires CodeSame(m, m') && CodeSame(m', m'')
    ensures CodeSame(m, m'')
  {
  }

  lemma {:induction false} BlockedSame(flags: seq<Flags>, flags': seq<Flags>, first: nat, last: int, want: Flags)
    requires |flags'| == |flags| && last < |flags|
    requires forall p :: 0 <= p < |flags| ==> flags'[p].executable == flags[p].executable
    ensures Blocked(flags', first, last, want) == Blocked(flags, first, last, want)
    decreases last - first
  {
  }

  /** Fetches agree, failures included. */
  lemma {:induction false} FetchSame(m: Memory, m': Memory, addr: U64, n: nat)
    requires CodeSame(m, m') && 0 < n <= 8
    ensures ExecuteLoad(m', addr, n) == ExecuteLoad(m, addr, n)
  {
    hide Blocked, PageBytes, LittleEndian;
    SameSize(m, m');
    CheckNoOverflowExact(m, addr, n);
    if InRange(m, addr, n) {
      AddressParts(addr + n - 1);
      BlockedSame(m.flags, m'.flags, PageOf(addr), LastPage(addr, n), EXECUTABLE);
      if ExecuteLoad(m, addr, n).Ok? { FetchKept(m, m', addr, n); }
    }
  }

  lemma {:induction false} RawDecodeSame(env: Env, m: Memory, m': Memory, pc: U64)
    requires CodeSame(m, m')
    ensures DecodeRaw(env, m', pc) == DecodeRaw(env, m, pc)
  {
    hide ExecuteLoad, FirstMatch;
    SameSize(m, m');
    if pc < |m.bytes| {
      FetchSame(m, m', pc, 4);
      FetchSame(m, m', pc, 2);
      FetchSame(m, m', pc + 2, 2);
    }
  }

  lemma {:induction false} WindowSame(env: Env, m: Memory, m': Memory, pc: U64, n: nat)
    requires CodeSame(m, m')
    ensures Window(env, m', pc, n) == Window(env, m, pc, n)
  {
    hide DecodeRaw, CodeSame, Length;
    if n > 0 {
      WindowSame(env, m, m', pc, n - 1);
      var w := Window(env, m, pc, n - 1);
      var at := pc + Length(w, |w|);
      if at < TWO64 { RawDecodeSame(env, m, m', at); }
    }
  }

  lemma {:induction false} DecodeSame(env: Env, mop: bool, m: Memory, m': Memory, pc: U64)
    requires CodeSame(m, m')
    ensures Decode(env, mop, m', pc) == Decode(env, mop, m, pc)
  {
    hide DecodeRaw, Window, Fuse, CodeSame;
    RawDecodeSame(env, m, m', pc);
    WindowSame(env, m, m', pc, LOOKAHEAD);
  }

  // ---------------------------------------------------------------- straight-line instructions

  lemma {:induction false} PutSame(m: Memory, addr: nat, data: seq<Byte>)
    requires data != [] && InRange(m, addr, |data|) && Blocked(m.flags, PageOf(addr), LastPage(addr, |data|), WRITABLE).None?
    ensures CodeSame(m, Put(m, addr, data))
  {
  }

  lemma {:induction false} StoreSame(m: Memory, addr: U64, n: nat, value: U64)
    requires n < TWO64
    ensures CodeSame(m, PagedMemory.Store(m, addr, n, value).mem)
  {
    hide Put, CodeSame;
    SelfSame(m);
    var data := ToLittleEndian(value, n);
    if data != [] && StoreError(m, addr, n).None? { PutSame(m, addr, data); }
  }

  lemma {:induction false} LrSame(m: Memory, lr: U64)
    ensures CodeSame(m, m.(lr := lr))
  {
  }

  /** A program cannot change code: stores to executable pages fail. */
  lemma {:induction false} ProgramKeepsCode(env: Env, i: Inst, s: State)
    requires !i.body.Ecall? && !i.body.Ebreak? && Handle(env, i, s).Ok?
    ensures CodeSame(s.mem, Handle(env, i, s).value.mem)
  {
    hide RegisterEffect, IsRegisterOp, HandleSc, HandleAmo, HandleLr, LoadWord, PagedMemory.Store, CodeSame;
    SelfSame(s.mem);
    match i.body {
      case Store(w, rs1, rs2, imm) => StoreSame(s.mem, Add(s.regs[rs1], FromI32(imm)), w.Bytes(), s.regs[rs2]);
      case Atomic(_, _, _, _, _) => AtomicKeepsCode(env, i, s);
      case _ =>
    }
  }

  lemma {:induction false} AtomicKeepsCode(env: Env, i: Inst, s: State)
    requires i.body.Atomic? && Handle(env, i, s).Ok?
    ensures CodeSame(s.mem, Handle(env, i, s).value.mem)
  {
    hide LoadWord, PagedMemory.Store, CodeSame;
    var w, addr := if i.body.double then W64 else W32, s.regs[i.body.rs1];
    match i.body.aop {
      case LR => LrSame(s.mem, addr);
      case SC =>
        var stored := if addr == s.mem.lr then s.regs[i.body.rs2] else LoadWord(s.mem, addr, w).value;
        StoreSame(s.mem, addr, w.Bytes(), stored);
        var m := PagedMemory.Store(s.mem, addr, w.Bytes(), stored).mem;
        LrSame(m, U64_MAX);
        SameTwice(s.mem, m, m.(lr := U64_MAX));
      case AMO(k) =>
        StoreSame(s.mem, addr, w.Bytes(), env.amo(k, i.body.double, LoadWord(s.mem, addr, w).value, s.regs[i.body.rs2]));
    }
  }

  /** Only block ends redirect control, go to the host, or stop the machine. */
  lemma {:induction false} StraightLine(env: Env, i: Inst, s: State)
    requires !IsBasicBlockEnd(i) && Perform(env, i, s).Ok?
    ensures var s1 := Perform(env, i, s).value;
            && s1.pc == Add(s.pc, i.len) && s1.running == s.running && s1.resetSignal == s.resetSignal
            && CodeSame(s.mem, s1.mem)
  {
    hide CodeSame, Handle;
    var paid := AddCycles(s, env.cost(i)).value;
    var ready := paid.(nextPc := Add(s.pc, i.len));
    NotABlockEnd(i);
    OnlyHostChanges(env, i, ready);
    ProgramKeepsCode(env, i, ready);
    FallsThrough(env, i, ready);
  }

  lemma {:induction false} NotABlockEnd(i: Inst)
    requires !IsBasicBlockEnd(i)
    ensures !i.body.Ecall? && !i.body.Ebreak? && !i.body.Branch?
    ensures !(i.body.I? && i.body.iop == JALR) && !(i.body.U? && i.body.uop != LUI && i.body.uop != LOAD_IMM)
  {
  }

  lemma {:induction false} FallsThrough(env: Env, i: Inst, s: State)
    requires !IsBasicBlockEnd(i) && Handle(env, i, s).Ok?
    ensures Handle(env, i, s).value.nextPc == s.nextPc
  {
    hide IsBasicBlockEnd, IsRegisterOp, RegisterEffect, LoadWord, PagedMemory.Store, HandleSc, HandleAmo, HandleLr;
    NotABlockEnd(i);
    NotAJump(i);
    if i.body.Atomic? { AtomicChanges(env, i, s); }
  }

  lemma {:induction false} NotAJump(i: Inst)
    requires !(i.body.I? && i.body.iop == JALR) && !(i.body.U? && i.body.uop != LUI && i.body.uop != LOAD_IMM)
    ensures i.body.I? || i.body.U? ==> IsRegisterOp(i.body)
  {
  }

  /** What ends a block: whatever may go elsewhere or reads its own address, the host calls and FENCE. */
  lemma {:induction false} BlockEnds(i: Inst)
    ensures IsBasicBlockEnd(i) <==>
            || i.body.Branch? || i.body.Ecall? || i.body.Ebreak? || i.body.Fence? || (i.body.I? && i.body.iop == JALR)
            || (i.body.U? && i.body.uop != LUI && i.body.uop != LOAD_IMM)
  {
  }

  // ---------------------------------------------------------------- blocks

  /** At most `n` instructions from `pc` on, up to the end of the basic block. */
  function Block(env: Env, mop: bool, m: Memory, pc: U64, n: nat): Result<seq<Inst>>
    decreases n
  {
    if n == 0 then Ok([])
    else
      match Decode(env, mop, m, pc)
      case Err(e) => Err(e)
      case Ok(i) =>
        if IsBasicBlockEnd(i) then Ok([i])
        else
          match Block(env, mop, m, Add(pc, i.len), n - 1)
          case Err(e) => Err(e)
          case Ok(rest) => Ok([i] + rest)
  }

  function PerformAll(env: Env, insts: seq<Inst>, s: State): Result<State>
  {
    if insts == [] then Ok(s)
    else
      match Perform(env, insts[0], s)
      case Err(e) => Err(e)
      case Ok(s1) => PerformAll(env, insts[1..], s1)
  }

  lemma {:induction false} BlockSame(env: Env, mop: bool, m: Memory, m': Memory, pc: U64, n: nat)
    requires CodeSame(m, m')
    ensures Block(env, mop, m', pc, n) == Block(env, mop, m, pc, n)
    decreases n
  {
    hide Decode, CodeSame, IsBasicBlockEnd;
    if n > 0 {
      DecodeSame(env, mop, m, m', pc);
      var i := Decode(env, mop, m, pc);
      if i.Ok? { BlockSame(env, mop, m, m', Add(pc, i.value.len), n - 1); }
    }
  }

  lemma {:induction false} BlockSize(env: Env, mop: bool, m: Memory, pc: U64, n: nat)
    requires Block(env, mop, m, pc, n).Ok?
    ensures |Block(env, mop, m, pc, n).value| <= n && (n > 0 ==> Block(env, mop, m, pc, n).value != [])
    decreases n
  {
    hide Decode, IsBasicBlockEnd;
    if n > 0 {
      var i := Decode(env, mop, m, pc).value;
      if !IsBasicBlockEnd(i) { BlockSize(env, mop, m, Add(pc, i.len), n - 1); }
    }
  }

  /**
   A block that decodes is as many turns of the run loop; one that does not decode to its end makes the run
   loop fail as well, though only after the instructions before the bad one.
   */
  lemma {:induction false} BlockRuns(env: Env, mop: bool, m: Memory, n: nat, s: State)
    requires CodeSame(m, s.mem) && s.running && !s.resetSignal
    ensures var b := Block(env, mop, m, s.pc, n);
            if b.Ok? then PerformAll(env, b.value, s) == Turns(env, mop, s, |b.value|) else Turns(env, mop, s, n).Err?
    decreases n
  {
    hide Decode, CodeSame, IsBasicBlockEnd, Perform;
    if n > 0 {
      DecodeSame(env, mop, m, s.mem, s.pc);
      assert s.(resetSignal := false) == s;
      var d := Decode(env, mop, m, s.pc);
      if d.Ok? && Perform(env, d.value, s).Ok? {
        var i, s1 := d.value, Perform(env, d.value, s).value;
        if IsBasicBlockEnd(i) {
          OneTurn(env, mop, s);
          assert [i][1..] == [] && PerformAll(env, [], s1) == Ok(s1);
        } else {
          StraightLine(env, i, s);
          SameTwice(m, s.mem, s1.mem);
          BlockRuns(env, mop, m, n - 1, s1);
          var rest := Block(env, mop, m, s1.pc, n - 1);
          if rest.Ok? { assert ([i] + rest.value)[1..] == rest.value; }
        }
      } else if d.Ok? {
        FailsAtOnce(env, mop, s, n);
      }
    }
  }

  lemma {:induction false} FailsAtOnce(env: Env, mop: bool, s: State, n: nat)
    requires s.running && Turn(env, mop, s).Err? && n > 0
    ensures Turns(env, mop, s, n) == Turn(env, mop, s)
    ensures Block(env, mop, s.mem, s.pc, n).Ok? ==> Turns(env, mop, s, |Block(env, mop, s.mem, s.pc, n).value|) == Turn(env, mop, s)
  {
    hide Turn;
    if Block(env, mop, s.mem, s.pc, n).Ok? { BlockSize(env, mop, s.mem, s.pc, n); }
  }

  // ---------------------------------------------------------------- runs of blocks

  /** One turn of the trace machine's loop, with no traces kept. */
  function BlockTurn(env: Env, mop: bool, s: State): Result<State> {
    var s0 := s.(resetSignal := false);
    match Block(env, mop, s0.mem, s0.pc, TRACE_ITEM_LENGTH)
    case Err(e) => Err(e)
    case Ok(insts) => PerformAll(env, insts, s0)
  }

  function BlockTurns(env: Env, mop: bool, s: State, n: nat): Result<State>
    decreases n
  {
    if n == 0 || !s.running then Ok(s)
    else
      match BlockTurn(env, mop, s)
      case Err(e) => Err(e)
      case Ok(s1) => BlockTurns(env, mop, s1, n - 1)
  }

  lemma {:induction false} BlockTurnIsTurns(env: Env, mop: bool, s: State) returns (k: nat)
    requires s.running
    ensures 1 <= k <= TRACE_ITEM_LENGTH
    ensures if BlockTurn(env, mop, s).Ok? then Turns(env, mop, s, k) == BlockTurn(env, mop, s) else Turns(env, mop, s, k).Err?
  {
    hide Block, Turns, PerformAll, CodeSame;
    var s0 := s.(resetSignal := false);
    var b := Block(env, mop, s0.mem, s0.pc, TRACE_ITEM_LENGTH);
    SelfSame(s0.mem);
    BlockRuns(env, mop, s0.mem, TRACE_ITEM_LENGTH, s0);
    k := TRACE_ITEM_LENGTH;
    if b.Ok? {
      BlockSize(env, mop, s0.mem, s0.pc, TRACE_ITEM_LENGTH);
      k := |b.value|;
    }
    SignalIgnored(env, mop, s, k);
  }

  /** Whatever the trace machine reaches, the plain one reaches; where it fails, the plain one fails. */
  lemma {:induction false} TraceIsTurns(env: Env, mop: bool, s: State, n: nat) returns (k: nat)
    ensures k <= TRACE_ITEM_LENGTH * n
    ensures var r := BlockTurns(env, mop, s, n);
            if r.Ok? then Turns(env, mop, s, k) == r && (r.value.running ==> k >= n) else Turns(env, mop, s, k).Err?
    decreases n
  {
    hide Turn, BlockTurn;
    k := 0;
    if n > 0 && s.running {
      var first := BlockTurnIsTurns(env, mop, s);
      k := first;
      var r := BlockTurn(env, mop, s);
      if r.Ok? {
        var rest := TraceIsTurns(env, mop, r.value, n - 1);
        TurnsSum(env, mop, s, first, rest);
        k := first + rest;
      }
    }
  }

  /** And the other way round: a plain run that ends or fails makes the trace machine end alike or fail. */
  lemma {:induction false} TurnsIsTrace(env: Env, mop: bool, s: State, n: nat)
    requires var r := Turns(env, mop, s, n); r.Err? || !r.value.running
    ensures var r := Turns(env, mop, s, n);
            if r.Ok? then BlockTurns(env, mop, s, n) == r else BlockTurns(env, mop, s, n).Err?
  {
    hide Turn, BlockTurn, Turns, BlockTurns;
    var k := TraceIsTurns(env, mop, s, n);
    var r, b := Turns(env, mop, s, n), BlockTurns(env, mop, s, n);
    if k >= n {
      TurnsSum(env, mop, s, n, k - n);
      if r.Ok? { StoppedStays(env, mop, r.value, k - n); }
    } else {
      TurnsSum(env, mop, s, k, n - k);
      if b.Ok? && !b.value.running { StoppedStays(env, mop, b.value, n - k); }
    }
  }

  // ---------------------------------------------------------------- host code

  /** Host code leaves executable pages alone, unless it resets the machine. */
  ghost predicate HostKeepsCode(env: Env) {
    && (forall s :: env.syscall(s).Ok? ==> env.syscall(s).value.resetSignal || CodeSame(s.mem, env.syscall(s).value.mem))
    && (forall s :: env.debugger(s).Ok? ==> env.debugger(s).value.resetSignal || CodeSame(s.mem, env.debugger(s).value.mem))
  }

  lemma {:induction false} PerformKeepsCode(env: Env, i: Inst, s: State)
    requires HostKeepsCode(env) && Perform(env, i, s).Ok?
    ensures var s1 := Perform(env, i, s).value; s1.resetSignal || CodeSame(s.mem, s1.mem)
  {
    hide CodeSame;
    var paid := AddCycles(s, env.cost(i)).value;
    var ready := paid.(nextPc := Add(s.pc, i.len));
    if i.body.Ecall? || i.body.Ebreak? {
      hide RegisterEffect;
      SelfSame(s.mem);
    } else {
      hide Handle;
      ProgramKeepsCode(env, i, ready);
    }
  }

  /** Nor does an instruction that fails. */
  lemma {:induction false} FaultKeepsCode(env: Env, i: Inst, s: State)
    requires HostKeepsCode(env) && PerformLeft(env, i, s).Some?
    ensures var s1 := PerformLeft(env, i, s).value; s1.resetSignal || CodeSame(s.mem, s1.mem)
  {
    hide CodeSame, LoadWord, SignExtendWidth;
    SelfSame(s.mem);
  }

  lemma {:induction false} BlockKeepsCode(env: Env, mop: bool, m: Memory, pc: U64, n: nat, s: State)
    requires HostKeepsCode(env) && Block(env, mop, m, pc, n).Ok?
    requires PerformAll(env, Block(env, mop, m, pc, n).value, s).Ok?
    ensures var s1 := PerformAll(env, Block(env, mop, m, pc, n).value, s).value; s1.resetSignal || CodeSame(s.mem, s1.mem)
    decreases n
  {
    hide CodeSame, HostKeepsCode, Perform, Decode, IsBasicBlockEnd;
    SelfSame(s.mem);
    if n > 0 {
      var i := Decode(env, mop, m, pc).value;
      var s1 := Perform(env, i, s).value;
      if IsBasicBlockEnd(i) {
        PerformKeepsCode(env, i, s);
        assert [i][1..] == [] && PerformAll(env, [], s1) == Ok(s1);
      } else {
        StraightLine(env, i, s);
        var rest := Block(env, mop, m, Add(pc, i.len), n - 1).value;
        assert ([i] + rest)[1..] == rest;
        BlockKeepsCode(env, mop, m, Add(pc, i.len), n - 1, s1);
        var s2 := PerformAll(env, rest, s1).value;
        if CodeSame(s1.mem, s2.mem) { SameTwice(s.mem, s1.mem, s2.mem); }
      }
    }
  }

  // ---------------------------------------------------------------- blocks in parts

  /** A block is what has been decoded so far followed by the rest. */
  ghost predicate Continues(whole: Result<seq<Inst>>, sofar: seq<Inst>, rest: Result<seq<Inst>>) {
    if rest.Ok? then whole == Ok(sofar + rest.value) else whole == rest
  }

  lemma {:induction false} NothingYet(whole: Result<seq<Inst>>)
    ensures Continues(whole, [], whole)
  {
    if whole.Ok? { assert [] + whole.value == whole.value; }
  }

  lemma {:induction false} ContinuesFurther(whole: Result<seq<Inst>>, sofar: seq<Inst>, i: Inst, rest: Result<seq<Inst>>)
    requires Continues(whole, sofar, rest)
    ensures forall more: seq<Inst> :: rest == Ok([i] + more) ==> whole == Ok((sofar + [i]) + more)
    ensures rest == Ok([i]) ==> whole == Ok(sofar + [i])
  {
    forall more: seq<Inst> | rest == Ok([i] + more) ensures whole == Ok((sofar + [i]) + more) {
      assert sofar + ([i] + more) == (sofar + [i]) + more;
    }
  }
}
