/**
 The run loop of the plain machine (src/machine/mod.rs), with registers, memory and decoder cache all changed in place.
 It reaches what the step semantics reaches, and the loop ends because every instruction costs a cycle.
 */
module InPlaceRuns {
  import opened Words
  import opened PagedMemory
  import opened WXorX
  import opened Instructions
  import opened Machine
  import opened Decoders
  import opened Stepper
  import opened Blocks
  import opened Handlers

  /** A machine and a decoder that share nothing; the decoder's cache may be stale only while a reset is pending. */
  ghost predicate Coupled(core: CoreMachine, decoder: DefaultDecoder)
    reads core, core.memory.inner.Repr(), decoder.instructionsCache
  {
    && core.Valid() && decoder.Valid() && decoder.instructionsCache !in core.Repr()
    && (core.resetSignal || decoder.Coherent(core.memory.Memory()))
  }

  ghost predicate TameHost(env: Env) { HostKeepsSize(env) && HostKeepsCode(env) }

  method Pay(core: CoreMachine, cost: U64) returns (error: Option<Error>)
    requires core.Valid()
    modifies core`cycles
    ensures core.Valid() && Reaches(core.Abs(), error, AddCycles(old(core.Abs()), cost))
    ensures error.Some? ==> core.Abs() == old(core.Abs())
  {
    hide core.Regs;
    if core.cycles + cost >= TWO64 {
      return Some(CyclesOverflow);
    }
    if core.cycles + cost > core.maxCycles {
      return Some(CyclesExceeded);
    }
    core.cycles := core.cycles + cost;
    return None;
  }

  method PerformInPlace(core: CoreMachine, env: Env, i: Inst) returns (error: Option<Error>)
    requires core.Valid() && HostKeepsSize(env)
    modifies core.Repr()
    ensures core.Valid() && Reaches(core.Abs(), error, Perform(env, i, old(core.Abs())))
    ensures error.Some? ==> var left := PerformLeft(env, i, old(core.Abs())); left.Some? ==> core.Abs() == left.value
  {
    hide Machine.Execute, LeftBehind, core.Abs, core.Valid, HostKeepsSize;
    error := Pay(core, env.cost(i));
    if error.None? {
      error := core.Execute(env, i);
    }
  }

  /** One turn: a pending reset clears the cache, then an instruction is decoded, paid for and executed. */
  method TurnInPlace(core: CoreMachine, decoder: DefaultDecoder) returns (error: Option<Error>)
    requires Coupled(core, decoder) && TameHost(decoder.env)
    modifies core.Repr(), decoder.instructionsCache
    ensures core.Valid() && Reaches(core.Abs(), error, Turn(decoder.env, decoder.mop, old(core.Abs())))
    ensures error.None? ==> Coupled(core, decoder)
    ensures error.Some? ==>
              var left := TurnLeft(decoder.env, decoder.mop, old(core.Abs()));
              left.Some? ==> core.Abs() == left.value && Coupled(core, decoder)
  {
    hide Perform, PerformLeft, core.memory.Memory, core.memory.Valid, Fusion.DecodeMop, Machine.DecodeRaw, HostKeepsSize, HostKeepsCode, CodeKept,
      decoder.Coherent;
    if core.resetSignal {
      core.resetSignal := false;
      decoder.ResetInstructionsCache();
    }
    ghost var s := core.Abs();
    assert s == old(core.Abs()).(resetSignal := false);
    var i := decoder.Decode(core.memory, core.pc);
    if i.Err? {
      return Some(i.error);
    }
    assert core.Abs() == s;
    error := PerformInPlace(core, decoder.env, i.value);
    if error.None? {
      PerformKeepsCode(decoder.env, i.value, s);
      if !core.resetSignal { decoder.StaysCoherent(s.mem, core.memory.Memory()); }
    } else if PerformLeft(decoder.env, i.value, s).Some? {
      FaultKeepsCode(decoder.env, i.value, s);
      if !core.resetSignal { decoder.StaysCoherent(s.mem, core.memory.Memory()); }
    }
  }

  /** At most `n` turns reach what `n` turns of the step semantics reach. */
  method RunInPlace(core: CoreMachine, decoder: DefaultDecoder, n: nat) returns (error: Option<Error>)
    requires Coupled(core, decoder) && TameHost(decoder.env)
    modifies core.Repr(), decoder.instructionsCache
    ensures core.Valid() && Reaches(core.Abs(), error, Turns(decoder.env, decoder.mop, old(core.Abs()), n))
    ensures error.None? ==> Coupled(core, decoder)
    ensures var end := TurnsEnd(decoder.env, decoder.mop, old(core.Abs()), n);
            end.Some? ==> core.Abs() == end.value && Coupled(core, decoder)
  {
    hide Turn, TurnLeft, core.Valid, TameHost, core.memory.Memory;
    ghost var s0 := core.Abs();
    var i := 0;
    while i < n && core.running
      invariant 0 <= i <= n && Coupled(core, decoder)
      invariant Turns(decoder.env, decoder.mop, s0, n) == Turns(decoder.env, decoder.mop, core.Abs(), n - i)
      invariant TurnsEnd(decoder.env, decoder.mop, s0, n) == TurnsEnd(decoder.env, decoder.mop, core.Abs(), n - i)
    {
      error := TurnInPlace(core, decoder);
      if error.Some? {
        return;
      }
      i := i + 1;
    }
    return None;
  }

  /** `run_with_decoder`: the loop ends by itself, the cycles left being its measure. */
  method RunWithDecoder(core: CoreMachine, decoder: DefaultDecoder) returns (error: Option<Error>, code: int, ghost turns: nat)
    requires Coupled(core, decoder) && TameHost(decoder.env) && Metered(decoder.env)
    modifies core.Repr(), decoder.instructionsCache
    ensures core.Valid() && Reaches(core.Abs(), error, Turns(decoder.env, decoder.mop, old(core.Abs()).(running := true), turns))
    ensures error.None? ==> !core.running
    ensures error.None? ==> code == core.exitCode
    ensures Exits(decoder.env, decoder.mop, old(core.Abs()).(running := true), turns)
            || (error.None? && HostNeverStops(decoder.env)) ==>
              error.None? && ExitedWith(core.Abs())
    ensures turns <= 1 + if old(core.cycles) <= old(core.maxCycles) then old(core.maxCycles) - old(core.cycles) else 0
  {
    hide Turn, Turns, TurnLeft, Exits, ExitedWith, HostNeverStops, TameHost, Metered, core.Valid, core.memory.Memory, core.memory.Valid, decoder.Coherent, decoder.Valid;
    core.running := true;
    code := core.exitCode;
    ghost var s0 := core.Abs();
    turns := 0;
    assert Turns(decoder.env, decoder.mop, s0, 0) == Ok(s0) by { NoTurns(decoder.env, decoder.mop, s0); }
    while core.running
      invariant Coupled(core, decoder) && Turns(decoder.env, decoder.mop, s0, turns) == Ok(core.Abs())
      invariant turns == 0 ==> core.Abs() == s0
      invariant turns > 0 ==> core.cycles <= core.maxCycles <= s0.maxCycles && s0.cycles + turns <= core.cycles
      decreases if core.cycles <= core.maxCycles then core.maxCycles - core.cycles + 1 else 0
    {
      ghost var s := core.Abs();
      TurnsSum(decoder.env, decoder.mop, s0, turns, 1);
      OneTurn(decoder.env, decoder.mop, s);
      error := TurnInPlace(core, decoder);
      turns := turns + 1;
      if error.Some? {
        if Exits(decoder.env, decoder.mop, s0, turns) { ExitsLaw(decoder.env, decoder.mop, s0, turns); }
        return;
      }
      TurnCycles(decoder.env, decoder.mop, s);
    }
    if HostNeverStops(decoder.env) { EndsByExit(decoder.env, decoder.mop, s0, turns); }
    if Exits(decoder.env, decoder.mop, s0, turns) { ExitsLaw(decoder.env, decoder.mop, s0, turns); }
    return None, core.exitCode, turns;
  }

  lemma {:induction false} NoTurns(env: Env, mop: bool, s: State)
    ensures Turns(env, mop, s, 0) == Ok(s)
  {
  }
}
