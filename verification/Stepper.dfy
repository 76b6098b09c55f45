/**
 The run loop of the plain machine (src/machine/mod.rs): one decoded instruction at a time, paid
 for in cycles. With every instruction costing something it halts, and its decoder may cache.
 */
module Stepper {
  import opened Words
  import opened PagedMemory
  import opened Instructions
  import opened Machine
  import opened Fusion
  import opened Decoders

  function AddCycles(s: State, cycles: U64): Result<State> {
    if s.cycles + cycles >= TWO64 then Err(CyclesOverflow)
    else if s.cycles + cycles > s.maxCycles then Err(CyclesExceeded)
    else Ok(s.(cycles := s.cycles + cycles))
  }

  /** The configured decoder, without its cache. */
  function Decode(env: Env, mop: bool, m: Memory, pc: U64): Result<Inst> {
    if mop then DecodeMop(env, m, pc) else
      match DecodeRaw(env, m, pc) case Ok(i) => Ok(i) case Err(e) => Err(e)
  }

  /** Pays for an instruction and executes it. */
  function Perform(env: Env, i: Inst, s: State): Result<State> {
    match AddCycles(s, env.cost(i))
    case Err(e) => Err(e)
    case Ok(paid) => Execute(env, i, paid)
  }

  function Step(env: Env, mop: bool, s: State): Result<State> {
    match Decode(env, mop, s.mem, s.pc)
    case Err(e) => Err(e)
    case Ok(i) => Perform(env, i, s)
  }

  /** One turn of the run loop: the reset signal is taken back, then a step. */
  function Turn(env: Env, mop: bool, s: State): Result<State> {
    Step(env, mop, s.(resetSignal := false))
  }

  /** The machine an instruction leaves behind that could not be paid for, or failed. */
  function PerformLeft(env: Env, i: Inst, s: State): Option<State> {
    match AddCycles(s, env.cost(i))
    case Err(_) => Some(s)
    case Ok(paid) => LeftBehind(env, i, paid)
  }

  /** The machine a failing turn leaves behind; one that cannot decode or be paid for leaves it as it was. */
  function TurnLeft(env: Env, mop: bool, s: State): Option<State> {
    var s0 := s.(resetSignal := false);
    match Decode(env, mop, s0.mem, s0.pc)
    case Err(_) => Some(s0)
    case Ok(i) => PerformLeft(env, i, s0)
  }

  /** At most `n` turns; the loop ends when the machine stops running. */
  function Turns(env: Env, mop: bool, s: State, n: nat): Result<State>
    decreases n
  {
    if n == 0 || !s.running then Ok(s)
    else
      match Turn(env, mop, s)
      case Err(e) => Err(e)
      case Ok(s1) => Turns(env, mop, s1, n - 1)
  }

  /** The machine after at most `n` turns, also if one of them fails. */
  function TurnsEnd(env: Env, mop: bool, s: State, n: nat): Option<State>
    decreases n
  {
    if n == 0 || !s.running then Some(s)
    else
      match Turn(env, mop, s)
      case Err(_) => TurnLeft(env, mop, s)
      case Ok(s1) => TurnsEnd(env, mop, s1, n - 1)
  }

  lemma {:induction false} TurnsSum(env: Env, mop: bool, s: State, m: nat, n: nat)
    ensures Turns(env, mop, s, m).Ok? ==> Turns(env, mop, s, m + n) == Turns(env, mop, Turns(env, mop, s, m).value, n)
    ensures Turns(env, mop, s, m).Err? ==> Turns(env, mop, s, m + n) == Turns(env, mop, s, m)
    decreases m
  {
    hide Turn;
    if m > 0 && s.running {
      var r := Turn(env, mop, s);
      if r.Ok? { TurnsSum(env, mop, r.value, m - 1, n); }
    }
  }

  /** The reset signal only ever matters to caches. */
  lemma {:induction false} SignalIgnored(env: Env, mop: bool, s: State, n: nat)
    requires n > 0 && s.running
    ensures Turns(env, mop, s.(resetSignal := false), n) == Turns(env, mop, s, n)
  {
    hide Step;
  }

  /** A run that has stopped stays where it is. */
  lemma {:induction false} StoppedStays(env: Env, mop: bool, s: State, n: nat)
    requires !s.running
    ensures Turns(env, mop, s, n) == Ok(s)
  {
  }

  // ---------------------------------------------------------------- what instructions leave alone

  predicate SameControl(s: State, s1: State) {
    s1.cycles == s.cycles && s1.maxCycles == s.maxCycles && s1.running == s.running && s1.resetSignal == s.resetSignal
    && s1.exitCode == s.exitCode && s1.pc == s.pc
  }

  /** Only ECALL and EBREAK, which go to host code, touch cycles, the running flag or the reset signal. */
  lemma {:induction false} OnlyHostChanges(env: Env, i: Inst, s: State)
    requires !i.body.Ecall? && !i.body.Ebreak? && Handle(env, i, s).Ok?
    ensures SameControl(s, Handle(env, i, s).value)
  {
    hide RegisterEffect, IsRegisterOp, HandleSc, HandleAmo, LoadWord, PagedMemory.Store;
    if i.body.Atomic? { AtomicChanges(env, i, s); }
  }

  lemma {:induction false} AtomicChanges(env: Env, i: Inst, s: State)
    requires i.body.Atomic? && Handle(env, i, s).Ok?
    ensures SameControl(s, Handle(env, i, s).value) && Handle(env, i, s).value.nextPc == s.nextPc
  {
    hide LoadWord, PagedMemory.Store;
  }

  /** A turn without host code takes the reset signal back, pays the instruction and leaves the other controls alone. */
  lemma {:induction false} TurnControl(env: Env, mop: bool, s: State)
    requires Turn(env, mop, s).Ok? && var i := Decode(env, mop, s.mem, s.pc).value; !i.body.Ecall? && !i.body.Ebreak?
    ensures var s1, i := Turn(env, mop, s).value, Decode(env, mop, s.mem, s.pc).value;
            && !s1.resetSignal && s1.cycles == s.cycles + env.cost(i) <= s.maxCycles == s1.maxCycles
            && s1.running == s.running && s1.exitCode == s.exitCode && s1.pc == s1.nextPc
  {
    hide Decode, Handle;
    var s0 := s.(resetSignal := false);
    var i := Decode(env, mop, s.mem, s.pc).value;
    var paid := AddCycles(s0, env.cost(i)).value;
    OnlyHostChanges(env, i, paid.(nextPc := Add(paid.pc, i.len)));
  }

  // ---------------------------------------------------------------- cycles

  /** Every instruction costs something; host code neither gives cycles back nor raises the limit. */
  ghost predicate Metered(env: Env) {
    && (forall i :: env.cost(i) >= 1)
    && (forall s :: env.syscall(s).Ok? ==>
          s.cycles <= env.syscall(s).value.cycles && env.syscall(s).value.maxCycles <= s.maxCycles)
    && (forall s :: env.debugger(s).Ok? ==>
          s.cycles == env.debugger(s).value.cycles && env.debugger(s).value.maxCycles == s.maxCycles)
  }

  lemma {:induction false} ExecuteCycles(env: Env, i: Inst, s: State)
    requires Metered(env) && s.cycles <= s.maxCycles && Execute(env, i, s).Ok?
    ensures var s1 := Execute(env, i, s).value; s.cycles <= s1.cycles <= s1.maxCycles <= s.maxCycles
  {
    var s0 := s.(nextPc := Add(s.pc, i.len));
    if i.body.Ecall? || i.body.Ebreak? {
      hide RegisterEffect;
    } else {
      hide Handle;
      OnlyHostChanges(env, i, s0);
    }
  }

  /** After every step that succeeds the cycles are within the limit, and there is less left. */
  lemma {:induction false} TurnCycles(env: Env, mop: bool, s: State)
    requires Metered(env) && Turn(env, mop, s).Ok?
    ensures var s1 := Turn(env, mop, s).value; s.cycles + 1 <= s1.cycles <= s1.maxCycles <= s.maxCycles
  {
    hide Execute, Decode;
    var s0 := s.(resetSignal := false);
    var i := Decode(env, mop, s0.mem, s0.pc).value;
    ExecuteCycles(env, i, AddCycles(s0, env.cost(i)).value);
  }

  lemma {:induction false} TurnsCycles(env: Env, mop: bool, s: State, n: nat)
    requires Metered(env) && Turns(env, mop, s, n).Ok?
    ensures var s1 := Turns(env, mop, s, n).value;
            && s1.maxCycles <= s.maxCycles && (s1.running ==> s.cycles + n <= s1.cycles)
            && (n > 0 && s.running ==> s1.cycles <= s1.maxCycles)
    decreases n
  {
    hide Turn, Metered;
    if n > 0 && s.running {
      TurnCycles(env, mop, s);
      TurnsCycles(env, mop, Turn(env, mop, s).value, n - 1);
    }
  }

  /** The loop halts within as many turns as there are cycles left, and one more. */
  lemma {:induction false} Halts(env: Env, mop: bool, s: State)
    requires Metered(env)
    ensures var left := if s.cycles <= s.maxCycles then s.maxCycles - s.cycles else 0;
            var r := Turns(env, mop, s, left + 1); r.Err? || !r.value.running
  {
    hide Turn, Metered;
    var left := if s.cycles <= s.maxCycles then s.maxCycles - s.cycles else 0;
    if Turns(env, mop, s, left + 1).Ok? { TurnsCycles(env, mop, s, left + 1); }
  }

  lemma {:induction false} OneTurn(env: Env, mop: bool, s: State)
    requires s.running
    ensures Turns(env, mop, s, 1) == Turn(env, mop, s)
  {
    hide Turn;
    var r := Turn(env, mop, s);
    if r.Ok? { assert Turns(env, mop, r.value, 0) == r; }
  }

  // ---------------------------------------------------------------- exits

  /** ECALL with 93 in a7. */
  predicate IsExit(i: Inst, s: State) { i.body.Ecall? && s.regs[A7] == 93 }

  /** The next turn makes the program exit. */
  predicate TurnExits(env: Env, mop: bool, s: State) {
    var s0 := s.(resetSignal := false);
    var d := Decode(env, mop, s.mem, s.pc);
    s.running && d.Ok? && IsExit(d.value, s) && AddCycles(s0, env.cost(d.value)).Ok?
  }

  /** The machine has stopped with the low byte of a0, read as a signed number. */
  predicate ExitedWith(s: State) { !s.running && -128 <= s.exitCode < 128 && (s.exitCode - s.regs[A0]) % 256 == 0 }

  lemma {:induction false} ExitStops(env: Env, i: Inst, s: State)
    requires IsExit(i, s)
    ensures var r := Handle(env, i, s);
            r.Ok? && ExitedWith(r.value) && r.value == s.(running := false, exitCode := r.value.exitCode)
  {
    hide RegisterEffect;
  }

  /** An exit that can be paid for stops the machine with its code, and changes neither registers nor memory. */
  lemma {:induction false} ExitLaw(env: Env, mop: bool, s: State)
    requires TurnExits(env, mop, s)
    ensures var r := Turn(env, mop, s);
            && r.Ok? && ExitedWith(r.value) && r.value.regs == s.regs && r.value.mem == s.mem
            && r.value.cycles == s.cycles + env.cost(Decode(env, mop, s.mem, s.pc).value)
  {
    hide Decode, Handle;
    var s0 := s.(resetSignal := false);
    var i := Decode(env, mop, s.mem, s.pc).value;
    var paid := AddCycles(s0, env.cost(i)).value;
    ExitStops(env, i, paid.(nextPc := Add(paid.pc, i.len)));
  }

  /** The program exits within the first `n` turns. */
  predicate Exits(env: Env, mop: bool, s: State, n: nat)
    decreases n
  {
    n > 0 && s.running
    && (TurnExits(env, mop, s) || (Turn(env, mop, s).Ok? && Exits(env, mop, Turn(env, mop, s).value, n - 1)))
  }

  /** A run in which the program exits ends with its exit code. */
  lemma {:induction false} ExitsLaw(env: Env, mop: bool, s: State, n: nat)
    requires Exits(env, mop, s, n)
    ensures Turns(env, mop, s, n).Ok? && ExitedWith(Turns(env, mop, s, n).value)
    decreases n
  {
    hide Turn, TurnExits, ExitedWith;
    if TurnExits(env, mop, s) {
      ExitLaw(env, mop, s);
      ExitedStops(Turn(env, mop, s).value);
      StoppedStays(env, mop, Turn(env, mop, s).value, n - 1);
    } else {
      ExitsLaw(env, mop, Turn(env, mop, s).value, n - 1);
    }
  }

  lemma {:induction false} ExitedStops(s: State)
    requires ExitedWith(s)
    ensures !s.running
  {
  }

  /** Host code leaves a running machine running. */
  ghost predicate HostNeverStops(env: Env) {
    && (forall s :: env.syscall(s).Ok? && s.running ==> env.syscall(s).value.running)
    && (forall s :: env.debugger(s).Ok? && s.running ==> env.debugger(s).value.running)
  }

  /** Then the only way to end is to exit. */
  lemma {:induction false} EndsByExit(env: Env, mop: bool, s: State, n: nat)
    requires HostNeverStops(env) && s.running
    requires Turns(env, mop, s, n).Ok? && !Turns(env, mop, s, n).value.running
    ensures Exits(env, mop, s, n)
    decreases n
  {
    hide Turn, TurnExits, HostNeverStops;
    if n > 0 {
      if !TurnExits(env, mop, s) {
        GoesOnUnlessExit(env, mop, s);
        EndsByExit(env, mop, Turn(env, mop, s).value, n - 1);
      }
    }
  }

  lemma {:induction false} GoesOnUnlessExit(env: Env, mop: bool, s: State)
    requires HostNeverStops(env) && s.running && Turn(env, mop, s).Ok? && !TurnExits(env, mop, s)
    ensures Turn(env, mop, s).value.running
  {
    hide Decode;
    var s0 := s.(resetSignal := false);
    var i := Decode(env, mop, s.mem, s.pc).value;
    var ready := AddCycles(s0, env.cost(i)).value.(nextPc := Add(s0.pc, i.len));
    if i.body.Ecall? || i.body.Ebreak? {
      hide RegisterEffect;
    } else {
      hide Handle;
      OnlyHostChanges(env, i, ready);
    }
  }
}
