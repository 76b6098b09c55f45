/**
 Runs with their cycles set aside (src/machine/mod.rs): what a run does when every instruction is executed from a full
 purse, what it has to pay, and how a run that pays relates to that.
 */
module PaidRuns {
  import opened Words
  import opened PagedMemory
  import opened Instructions
  import opened Machine
  import opened Stepper

  predicate OutOfCycles(r: Result<State>) { r.Err? && (r.error == CyclesOverflow || r.error == CyclesExceeded) }

  function Purse(s: State, cycles: U64, limit: U64): State { s.(cycles := cycles, maxCycles := limit) }

  function Full(s: State): State { Purse(s, 0, U64_MAX) }

  function Pursed(r: Result<State>, cycles: U64, limit: U64): Result<State> {
    match r case Ok(s) => Ok(Purse(s, cycles, limit)) case Err(e) => Err(e)
  }

  predicate SameButCycles(s: State, t: State) { t == Purse(s, t.cycles, t.maxCycles) }

  /** The same state, cycles and limit apart, or the same error. */
  predicate SameOutcome(r: Result<State>, r': Result<State>) {
    if r.Ok? && r'.Ok? then SameButCycles(r.value, r'.value) else r == r'
  }

  // ---------------------------------------------------------------- runs nobody pays for

  /** A turn of the loop from a full purse. */
  function FreeTurn(env: Env, mop: bool, s: State): Result<State> {
    match Decode(env, mop, s.mem, s.pc)
    case Err(e) => Err(e)
    case Ok(i) => Execute(env, i, Full(s).(resetSignal := false))
  }

  function FreeTurns(env: Env, mop: bool, s: State, n: nat): Result<State>
    decreases n
  {
    if n == 0 || !s.running then Ok(s)
    else
      match FreeTurn(env, mop, s)
      case Err(e) => Err(e)
      case Ok(s1) => FreeTurns(env, mop, s1, n - 1)
  }

  lemma {:induction false} FreeSum(env: Env, mop: bool, s: State, m: nat, n: nat)
    ensures var r := FreeTurns(env, mop, s, m);
            FreeTurns(env, mop, s, m + n) == if r.Ok? then FreeTurns(env, mop, r.value, n) else r
    decreases m
  {
    hide FreeTurn;
    if m > 0 && s.running {
      var r := FreeTurn(env, mop, s);
      if r.Ok? { FreeSum(env, mop, r.value, m - 1, n); }
    }
  }

  lemma {:induction false} FreeOne(env: Env, mop: bool, s: State)
    requires s.running
    ensures FreeTurns(env, mop, s, 1) == FreeTurn(env, mop, s)
  {
    hide FreeTurn;
    var r := FreeTurn(env, mop, s);
    if r.Ok? { assert FreeTurns(env, mop, r.value, 0) == r; }
  }

  lemma {:induction false} FreeStopped(env: Env, mop: bool, s: State, n: nat)
    requires !s.running
    ensures FreeTurns(env, mop, s, n) == Ok(s)
  {
  }

  /** The purse a free run starts with does not matter. */
  lemma {:induction false} FreeSame(env: Env, mop: bool, s: State, t: State, n: nat)
    requires SameButCycles(s, t)
    ensures SameOutcome(FreeTurns(env, mop, s, n), FreeTurns(env, mop, t, n))
    ensures n > 0 && s.running ==> FreeTurns(env, mop, s, n) == FreeTurns(env, mop, t, n)
  {
    hide Execute, Decode;
    assert Full(s) == Full(t);
  }

  // ---------------------------------------------------------------- hosts that do not look into the purse

  /** What host code does is the same, cycles and limit apart, whatever those are; it may run out of cycles. */
  ghost predicate Blind(f: State -> Result<State>) {
    forall s: State, cycles: U64, limit: U64 :: BlindAt(f(Full(s)), f(Purse(s, cycles, limit)))
  }

  /** From a full purse it does not overdraw. */
  predicate BlindAt(full: Result<State>, r: Result<State>) {
    (full.Ok? ==> full.value.cycles <= full.value.maxCycles) && (OutOfCycles(r) || SameOutcome(full, r))
  }

  ghost predicate BlindHost(env: Env) { Blind(env.syscall) && Blind(env.debugger) }

  /** No other instruction looks at cycles or limit. */
  lemma {:induction false} PlainExecute(env: Env, i: Inst, s: State, cycles: U64, limit: U64)
    requires !i.body.Ecall? && !i.body.Ebreak?
    ensures Execute(env, i, Purse(s, cycles, limit)) == Pursed(Execute(env, i, s), cycles, limit)
  {
    hide Handle;
    PlainHandle(env, i, s.(nextPc := Add(s.pc, i.len)), cycles, limit);
  }

  lemma {:induction false} PlainHandle(env: Env, i: Inst, s: State, cycles: U64, limit: U64)
    requires !i.body.Ecall? && !i.body.Ebreak?
    ensures Handle(env, i, Purse(s, cycles, limit)) == Pursed(Handle(env, i, s), cycles, limit)
  {
    if i.body.Atomic? {
      PlainAtomic(env, i, s, cycles, limit);
    } else {
      hide RegisterEffect, IsRegisterOp, LoadWord, PagedMemory.Store, HandleSc, HandleAmo, HandleLr, HandleEcall, BranchTaken, SignExtendWidth;
    }
  }

  lemma {:induction false} PlainAtomic(env: Env, i: Inst, s: State, cycles: U64, limit: U64)
    requires i.body.Atomic?
    ensures Handle(env, i, Purse(s, cycles, limit)) == Pursed(Handle(env, i, s), cycles, limit)
  {
    hide HandleLr, HandleSc, HandleAmo, RegisterEffect;
    var w, rd, addr, value := if i.body.double then W64 else W32, i.body.rd, s.regs[i.body.rs1], s.regs[i.body.rs2];
    match i.body.aop {
      case LR => PlainLr(s, w, rd, addr, cycles, limit);
      case SC => PlainSc(s, w, rd, addr, value, cycles, limit);
      case AMO(k) => PlainAmo(env, s, k, i.body.double, rd, addr, value, cycles, limit);
    }
  }

  lemma {:induction false} PlainLr(s: State, w: Width, rd: Reg, addr: U64, cycles: U64, limit: U64)
    ensures HandleLr(Purse(s, cycles, limit), w, rd, addr) == Pursed(HandleLr(s, w, rd, addr), cycles, limit)
  {
    hide LoadWord;
  }

  lemma {:induction false} PlainSc(s: State, w: Width, rd: Reg, addr: U64, value: U64, cycles: U64, limit: U64)
    ensures HandleSc(Purse(s, cycles, limit), w, rd, addr, value) == Pursed(HandleSc(s, w, rd, addr, value), cycles, limit)
  {
    hide LoadWord, PagedMemory.Store;
  }

  lemma {:induction false} PlainAmo(
      env: Env, s: State, k: AmoKind, double: bool, rd: Reg, addr: U64, value: U64, cycles: U64, limit: U64)
    ensures HandleAmo(env, Purse(s, cycles, limit), k, double, rd, addr, value)
            == Pursed(HandleAmo(env, s, k, double, rd, addr, value), cycles, limit)
  {
    hide LoadWord, PagedMemory.Store;
  }

  function Committed(r: Result<State>): Result<State> {
    match r case Ok(s) => Ok(s.(pc := s.nextPc)) case Err(e) => Err(e)
  }

  lemma {:induction false} HostExecute(env: Env, i: Inst, s: State)
    ensures i.body.Ecall? ==> Execute(env, i, s) == Committed(HandleEcall(env, s.(nextPc := Add(s.pc, i.len))))
    ensures i.body.Ebreak? ==> Execute(env, i, s) == Committed(env.debugger(s.(nextPc := Add(s.pc, i.len))))
  {
    hide RegisterEffect, HandleEcall;
  }

  lemma {:induction false} BlindEcall(env: Env, s: State, cycles: U64, limit: U64)
    requires BlindHost(env)
    ensures var r := HandleEcall(env, Purse(s, cycles, limit)); OutOfCycles(r) || SameOutcome(HandleEcall(env, Full(s)), r)
  {
    assert BlindAt(env.syscall(Full(s)), env.syscall(Purse(s, cycles, limit)));
  }

  lemma {:induction false} BlindExecute(env: Env, i: Inst, s: State, cycles: U64, limit: U64)
    requires BlindHost(env)
    ensures var r := Execute(env, i, Purse(s, cycles, limit)); OutOfCycles(r) || SameOutcome(Execute(env, i, Full(s)), r)
  {
    hide Execute, HandleEcall;
    var s0 := s.(nextPc := Add(s.pc, i.len));
    HostExecute(env, i, Full(s));
    HostExecute(env, i, Purse(s, cycles, limit));
    if i.body.Ecall? {
      BlindEcall(env, s0, cycles, limit);
    } else if i.body.Ebreak? {
      assert BlindAt(env.debugger(Full(s0)), env.debugger(Purse(s0, cycles, limit)));
    } else {
      PlainExecute(env, i, s, cycles, limit);
      PlainExecute(env, i, s, 0, U64_MAX);
    }
  }

  lemma {:induction false} TurnCutOrFree(env: Env, mop: bool, s: State)
    requires BlindHost(env)
    ensures var r := Turn(env, mop, s); OutOfCycles(r) || SameOutcome(FreeTurn(env, mop, s), r)
  {
    hide Execute, Decode, BlindHost;
    var s0 := s.(resetSignal := false);
    var d := Decode(env, mop, s.mem, s.pc);
    if d.Ok? && AddCycles(s0, env.cost(d.value)).Ok? {
      BlindExecute(env, d.value, s0, s.cycles + env.cost(d.value), s.maxCycles);
    }
  }

  /** A run that pays does what the free run does, or runs out of cycles. */
  lemma {:induction false} CutOrFree(env: Env, mop: bool, s: State, n: nat)
    requires BlindHost(env)
    ensures var r := Turns(env, mop, s, n); OutOfCycles(r) || SameOutcome(FreeTurns(env, mop, s, n), r)
    decreases n
  {
    hide Turn, FreeTurn, BlindHost;
    if n > 0 && s.running {
      TurnCutOrFree(env, mop, s);
      var r, free := Turn(env, mop, s), FreeTurn(env, mop, s);
      if r.Ok? {
        CutOrFree(env, mop, r.value, n - 1);
        FreeSame(env, mop, free.value, r.value, n - 1);
      }
    }
  }

  // ---------------------------------------------------------------- hosts that charge

  /**
   Host code charges an amount that does not depend on cycles and limit, leaves the limit alone, and fails alike
   whatever they are; a call that overdraws may succeed or run out of cycles itself.
   */
  ghost predicate Charges(f: State -> Result<State>) {
    forall s: State, cycles: U64, limit: U64 :: ChargedAt(f(Full(s)), f(Purse(s, cycles, limit)), cycles, limit)
  }

  predicate ChargedAt(full: Result<State>, r: Result<State>, cycles: U64, limit: U64) {
    match full
    case Ok(t) =>
      var sum: int := cycles + t.cycles;
      t.maxCycles == U64_MAX
      && if sum <= limit then r == Ok(Purse(t, sum, limit)) else OutOfCycles(r) || (sum < TWO64 && r == Ok(Purse(t, sum, limit)))
    case Err(e) => r == full
  }

  /** System calls charge; the debugger, after which nothing is checked, does not. */
  ghost predicate ChargingHost(env: Env) {
    && Charges(env.syscall)
    && forall s: State, cycles: U64, limit: U64 :: env.debugger(Purse(s, cycles, limit)) == Pursed(env.debugger(Full(s)), cycles, limit)
  }

  lemma {:induction false} ChargingIsBlind(env: Env)
    requires ChargingHost(env)
    ensures BlindHost(env)
  {
    forall s: State, cycles: U64, limit: U64
      ensures BlindAt(env.syscall(Full(s)), env.syscall(Purse(s, cycles, limit)))
      ensures BlindAt(env.debugger(Full(s)), env.debugger(Purse(s, cycles, limit)))
    {
      assert ChargedAt(env.syscall(Full(s)), env.syscall(Purse(s, cycles, limit)), cycles, limit);
      assert env.debugger(Purse(s, 0, U64_MAX)) == Pursed(env.debugger(Full(s)), 0, U64_MAX);
    }
  }

  /** What the first `n` turns of a run have to pay: the cost of every instruction and what the host charges. */
  ghost function Due(env: Env, mop: bool, s: State, n: nat): nat
    decreases n
  {
    if n == 0 || !s.running then 0
    else TurnDue(env, mop, s) + match FreeTurn(env, mop, s) case Ok(s1) => Due(env, mop, s1, n - 1) case Err(_) => 0
  }

  ghost function TurnDue(env: Env, mop: bool, s: State): nat {
    match Decode(env, mop, s.mem, s.pc)
    case Err(_) => 0
    case Ok(i) => env.cost(i) + match FreeTurn(env, mop, s) case Ok(s1) => s1.cycles case Err(_) => 0
  }

  lemma {:induction false} DueSame(env: Env, mop: bool, s: State, t: State, n: nat)
    requires SameButCycles(s, t)
    ensures Due(env, mop, s, n) == Due(env, mop, t, n)
  {
    hide Execute, Decode;
    assert Full(s) == Full(t);
  }

  lemma {:induction false} DueSum(env: Env, mop: bool, s: State, m: nat, n: nat)
    ensures var r := FreeTurns(env, mop, s, m);
            Due(env, mop, s, m + n) == Due(env, mop, s, m) + if r.Ok? then Due(env, mop, r.value, n) else 0
    decreases m
  {
    hide FreeTurn, TurnDue;
    if m > 0 && s.running {
      var r := FreeTurn(env, mop, s);
      if r.Ok? { DueSum(env, mop, r.value, m - 1, n); }
    }
  }

  lemma {:induction false} DueOne(env: Env, mop: bool, s: State)
    requires s.running
    ensures Due(env, mop, s, 1) == TurnDue(env, mop, s)
  {
    hide FreeTurn, TurnDue;
    var r := FreeTurn(env, mop, s);
    if r.Ok? { assert Due(env, mop, r.value, 0) == 0; }
  }

  /** What should come of an instruction executed from a purse: charged, or out of cycles. */
  predicate Paid(free: Result<State>, r: Result<State>, cycles: U64, limit: U64) {
    var sum: int := cycles + if free.Ok? then free.value.cycles else 0;
    if sum <= limit then r == Pursed(free, sum, limit) else OutOfCycles(r)
  }

  lemma {:induction false} EcallPays(env: Env, s: State, cycles: U64, limit: U64)
    requires ChargingHost(env) && cycles <= limit
    ensures Paid(HandleEcall(env, Full(s)), HandleEcall(env, Purse(s, cycles, limit)), cycles, limit)
  {
    assert ChargedAt(env.syscall(Full(s)), env.syscall(Purse(s, cycles, limit)), cycles, limit);
    assert ChargedAt(env.syscall(Full(s)), env.syscall(Purse(s, 0, U64_MAX)), 0, U64_MAX);
  }

  lemma {:induction false} DebuggerPays(env: Env, s: State, cycles: U64, limit: U64)
    requires ChargingHost(env) && cycles <= limit
    ensures Paid(env.debugger(Full(s)), env.debugger(Purse(s, cycles, limit)), cycles, limit)
  {
    assert env.debugger(Purse(s, cycles, limit)) == Pursed(env.debugger(Full(s)), cycles, limit);
    assert env.debugger(Purse(s, 0, U64_MAX)) == Pursed(env.debugger(Full(s)), 0, U64_MAX);
  }

  lemma {:induction false} ExecutePays(env: Env, i: Inst, s: State, cycles: U64, limit: U64)
    requires ChargingHost(env) && cycles <= limit
    ensures Paid(Execute(env, i, Full(s)), Execute(env, i, Purse(s, cycles, limit)), cycles, limit)
  {
    hide Execute, HandleEcall, ChargingHost;
    var s0 := s.(nextPc := Add(s.pc, i.len));
    HostExecute(env, i, Full(s));
    HostExecute(env, i, Purse(s, cycles, limit));
    if i.body.Ecall? {
      EcallPays(env, s0, cycles, limit);
    } else if i.body.Ebreak? {
      DebuggerPays(env, s0, cycles, limit);
    } else {
      PlainExecute(env, i, s, cycles, limit);
      PlainExecute(env, i, s, 0, U64_MAX);
    }
  }

  lemma {:induction false} TurnPays(env: Env, mop: bool, s: State)
    requires ChargingHost(env) && s.cycles <= s.maxCycles
    ensures var sum: int := s.cycles + TurnDue(env, mop, s);
            if sum <= s.maxCycles then Turn(env, mop, s) == Pursed(FreeTurn(env, mop, s), sum, s.maxCycles)
            else OutOfCycles(Turn(env, mop, s))
  {
    hide Execute, Decode, ChargingHost;
    var s0 := s.(resetSignal := false);
    var d := Decode(env, mop, s.mem, s.pc);
    if d.Ok? && AddCycles(s0, env.cost(d.value)).Ok? {
      ExecutePays(env, d.value, s0, s.cycles + env.cost(d.value), s.maxCycles);
    }
  }

  /** A run within its limit pays exactly what is due, and runs out of cycles exactly when that is too much. */
  lemma {:induction false} PaysExactly(env: Env, mop: bool, s: State, n: nat)
    requires ChargingHost(env) && s.cycles <= s.maxCycles
    ensures var sum: int := s.cycles + Due(env, mop, s, n);
            if sum <= s.maxCycles then Turns(env, mop, s, n) == Pursed(FreeTurns(env, mop, s, n), sum, s.maxCycles)
            else OutOfCycles(Turns(env, mop, s, n))
    decreases n
  {
    hide Turn, FreeTurn, TurnDue, ChargingHost;
    if n > 0 && s.running {
      TurnPays(env, mop, s);
      var r, free := Turn(env, mop, s), FreeTurn(env, mop, s);
      if r.Ok? {
        PaysExactly(env, mop, r.value, n - 1);
        FreeSame(env, mop, free.value, r.value, n - 1);
        DueSame(env, mop, free.value, r.value, n - 1);
      }
    }
  }
}
