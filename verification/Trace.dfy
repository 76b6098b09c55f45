/**
 The trace machine (src/machine/trace.rs): basic blocks are decoded ahead, through the caching decoder, and kept in a
 table of traces. Every run of it is matched with a run of the machine that decodes each instruction anew.
 */
module Traces {
  import opened Words
  import opened PagedMemory
  import opened WXorX
  import opened Instructions
  import opened Machine
  import opened Fusion
  import opened Decoders
  import opened Stepper
  import opened Blocks
  import opened Handlers
  import opened InPlaceRuns

  const TRACE_SIZE: nat := 8192

  datatype Trace = Trace(address: U64, instructions: seq<Inst>)

  const NO_TRACE := Trace(0, [])

  function CalculateSlot(addr: U64): (slot: nat)
    ensures slot < TRACE_SIZE
  {
    addr / 4 % TRACE_SIZE
  }

  class TraceMachine {
    const core: CoreMachine
    const decoder: DefaultDecoder
    const traces: array<Trace>

    ghost predicate Apart()
      reads core.memory.inner.Repr()
    {
      && core.Valid() && decoder.Valid() && traces.Length == TRACE_SIZE
      && decoder.instructionsCache !in core.Repr() && traces !in core.Repr()
    }

    /** Decoder cache and traces may be stale only while a reset is pending. */
    ghost predicate Valid()
      reads core, core.memory.inner.Repr(), decoder.instructionsCache, traces
    {
      Apart() && (core.resetSignal || Coherent(core.memory.Memory()))
    }

    /** Every trace in use is the block that decoding its address gives, and the decoder's cache is right. */
    ghost predicate Coherent(m: Memory)
      requires decoder.Valid() && traces.Length == TRACE_SIZE
      reads traces, decoder.instructionsCache
    {
      decoder.Coherent(m) && TracesCoherent(m)
    }

    ghost predicate TracesCoherent(m: Memory)
      requires traces.Length == TRACE_SIZE
      reads traces
    {
      forall k :: 0 <= k < TRACE_SIZE ==> TraceCoherent(m, traces[k])
    }

    ghost predicate TraceCoherent(m: Memory, t: Trace) {
      t.instructions == [] || Block(decoder.env, decoder.mop, m, t.address, TRACE_ITEM_LENGTH) == Ok(t.instructions)
    }

    constructor (core: CoreMachine, decoder: DefaultDecoder)
      requires Coupled(core, decoder)
      ensures this.core == core && this.decoder == decoder && fresh(traces) && Valid()
    {
      hide Block, core.memory.Memory, core.memory.Valid, core.Valid, decoder.Coherent;
      this.core, this.decoder := core, decoder;
      traces := new Trace[TRACE_SIZE](i => NO_TRACE);
    }

    lemma {:induction false} StaysCoherent(m: Memory, m': Memory)
      requires decoder.Valid() && traces.Length == TRACE_SIZE && Coherent(m) && CodeSame(m, m')
      ensures Coherent(m')
    {
      decoder.StaysCoherent(m, m');
      hide Block, CodeSame, decoder.Coherent;
      forall k | 0 <= k < TRACE_SIZE ensures TraceCoherent(m', traces[k]) {
        assert TraceCoherent(m, traces[k]);
        BlockSame(decoder.env, decoder.mop, m, m', traces[k].address, TRACE_ITEM_LENGTH);
      }
    }

    /** Decodes a block into its slot, through the decoder's cache. */
    method BuildTrace(pc: U64, slot: nat) returns (error: Option<Error>)
      requires Apart() && Coherent(core.memory.Memory()) && slot < TRACE_SIZE
      modifies traces, decoder.instructionsCache, core.memory.inner.Repr()
      ensures Apart() && core.Abs() == old(core.Abs()) && Coherent(core.memory.Memory())
      ensures var b := Block(decoder.env, decoder.mop, core.memory.Memory(), pc, TRACE_ITEM_LENGTH);
              if b.Ok? then error.None? && traces[slot] == Trace(pc, b.value) else error == Some(b.error)
    {
      hide IsBasicBlockEnd, DecodeMop, Machine.DecodeRaw, core.memory.Memory, core.memory.Valid, decoder.Coherent, TraceCoherent;
      ghost var m, env, mop := core.memory.Memory(), decoder.env, decoder.mop;
      traces[slot] := NO_TRACE;
      EmptyTrace(m);
      var instructions := [];
      var currentPc, i, ended := pc, 0, false;
      NothingYet(Block(env, mop, m, pc, TRACE_ITEM_LENGTH));
      while i < TRACE_ITEM_LENGTH && !ended
        invariant 0 <= i <= TRACE_ITEM_LENGTH && Apart() && core.Abs() == old(core.Abs()) && Coherent(m)
        invariant !ended ==> Continues(Block(env, mop, m, pc, TRACE_ITEM_LENGTH), instructions,
                                       Block(env, mop, m, currentPc, TRACE_ITEM_LENGTH - i))
        invariant ended ==> Block(env, mop, m, pc, TRACE_ITEM_LENGTH) == Ok(instructions)
        decreases TRACE_ITEM_LENGTH - i, !ended
      {
        var d := decoder.Decode(core.memory, currentPc);
        if d.Err? {
          return Some(d.error);
        }
        ended := IsBasicBlockEnd(d.value);
        ContinuesFurther(Block(env, mop, m, pc, TRACE_ITEM_LENGTH), instructions, d.value,
                         Block(env, mop, m, currentPc, TRACE_ITEM_LENGTH - i));
        currentPc := Add(currentPc, d.value.len);
        instructions := instructions + [d.value];
        i := i + 1;
      }
      assert instructions + [] == instructions;
      traces[slot] := Trace(pc, instructions);
      BuiltTrace(m, traces[slot]);
      return None;
    }

    lemma {:induction false} EmptyTrace(m: Memory)
      ensures TraceCoherent(m, NO_TRACE)
    {
    }

    lemma {:induction false} BuiltTrace(m: Memory, t: Trace)
      requires Block(decoder.env, decoder.mop, m, t.address, TRACE_ITEM_LENGTH) == Ok(t.instructions)
      ensures TraceCoherent(m, t)
    {
    }

    /** `execute_with_thread` over the instructions of a trace. */
    method RunTrace(instructions: seq<Inst>) returns (error: Option<Error>)
      requires core.Valid() && TameHost(decoder.env)
      modifies core.Repr()
      ensures core.Valid() && Reaches(core.Abs(), error, PerformAll(decoder.env, instructions, old(core.Abs())))
    {
      hide Perform, HostKeepsSize, HostKeepsCode, core.memory.Memory, core.memory.Valid;
      ghost var s0 := core.Abs();
      for i := 0 to |instructions|
        invariant core.Valid() && PerformAll(decoder.env, instructions, s0) == PerformAll(decoder.env, instructions[i..], core.Abs())
      {
        error := PerformInPlace(core, decoder.env, instructions[i]);
        if error.Some? {
          return;
        }
        assert instructions[i..][1..] == instructions[i + 1..];
      }
      return None;
    }

    method ForgetTraces()
      requires traces.Length == TRACE_SIZE
      modifies traces
      ensures forall m :: TracesCoherent(m)
    {
      forall k | 0 <= k < TRACE_SIZE { traces[k] := NO_TRACE; }
    }

    lemma {:induction false} KnownTrace(m: Memory, slot: nat)
      requires decoder.Valid() && traces.Length == TRACE_SIZE && Coherent(m) && slot < TRACE_SIZE && traces[slot].instructions != []
      ensures Block(decoder.env, decoder.mop, m, traces[slot].address, TRACE_ITEM_LENGTH) == Ok(traces[slot].instructions)
    {
      hide Block, decoder.Coherent;
      assert TraceCoherent(m, traces[slot]);
    }

    /** A pending reset clears decoder cache and traces. */
    method TakeSignal()
      requires Valid()
      modifies core`resetSignal, traces, decoder.instructionsCache
      ensures Apart() && Coherent(core.memory.Memory()) && core.Abs() == old(core.Abs()).(resetSignal := false)
    {
      hide core.memory.Memory, core.memory.Valid, decoder.Coherent, TraceCoherent;
      if core.resetSignal {
        core.resetSignal := false;
        decoder.ResetInstructionsCache();
        ForgetTraces();
      }
    }

    /** One turn of the loop: find or build the trace at the pc, then run it. */
    method TurnOfTraces() returns (error: Option<Error>)
      requires Valid() && TameHost(decoder.env)
      modifies core.Repr(), traces, decoder.instructionsCache
      ensures core.Valid() && Reaches(core.Abs(), error, BlockTurn(decoder.env, decoder.mop, old(core.Abs())))
      ensures error.None? ==> Valid()
    {
      hide Block, PerformAll, HostKeepsSize, HostKeepsCode, Coherent, CodeSame, core.memory.Memory, core.memory.Valid;
      TakeSignal();
      ghost var s := core.Abs();
      var pc := core.pc;
      var slot := CalculateSlot(pc);
      if traces[slot].address != pc || traces[slot].instructions == [] {
        error := BuildTrace(pc, slot);
        if error.Some? {
          return;
        }
      } else {
        KnownTrace(s.mem, slot);
      }
      error := RunTrace(traces[slot].instructions);
      if error.None? {
        BlockKeepsCode(decoder.env, decoder.mop, s.mem, pc, TRACE_ITEM_LENGTH, s);
        if !core.resetSignal { StaysCoherent(s.mem, core.memory.Memory()); }
      }
    }

    /** The run loop, for at most `n` traces: keeping traces between turns changes nothing. */
    method RunTraces(n: nat) returns (error: Option<Error>)
      requires Valid() && TameHost(decoder.env)
      modifies core.Repr(), traces, decoder.instructionsCache
      ensures core.Valid() && Reaches(core.Abs(), error, BlockTurns(decoder.env, decoder.mop, old(core.Abs()), n))
      ensures error.None? ==> Valid()
    {
      hide BlockTurn, TameHost, Coherent, core.memory.Memory, core.memory.Valid;
      ghost var s0 := core.Abs();
      var i := 0;
      while i < n && core.running
        invariant 0 <= i <= n && Valid()
        invariant BlockTurns(decoder.env, decoder.mop, s0, n) == BlockTurns(decoder.env, decoder.mop, core.Abs(), n - i)
      {
        error := TurnOfTraces();
        if error.Some? {
          return;
        }
        i := i + 1;
      }
      return None;
    }

    /** `run_with_decoder`: the loop ends by itself, and what it reaches single steps reach. */
    method RunWithDecoder() returns (error: Option<Error>, code: int, ghost turns: nat)
      requires Valid() && TameHost(decoder.env) && Metered(decoder.env)
      modifies core.Repr(), traces, decoder.instructionsCache
      ensures core.Valid()
      ensures var r := Turns(decoder.env, decoder.mop, old(core.Abs()).(running := true), turns);
              if r.Ok? then error.None? && core.Abs() == r.value && !core.running else error.Some?
      ensures error.None? ==> code == core.exitCode
      ensures Exits(decoder.env, decoder.mop, old(core.Abs()).(running := true), turns)
              || (error.None? && HostNeverStops(decoder.env)) ==>
                error.None? && ExitedWith(core.Abs())
    {
      hide BlockTurn, Turns, Exits, ExitedWith, HostNeverStops, TameHost, Metered, Coherent, core.memory.Memory, core.memory.Valid;
      core.running := true;
      code := core.exitCode;
      ghost var s0 := core.Abs();
      turns := 0;
      NoTurns(decoder.env, decoder.mop, s0);
      while core.running
        invariant Valid() && Turns(decoder.env, decoder.mop, s0, turns) == Ok(core.Abs())
        decreases core.running, if core.cycles <= core.maxCycles then core.maxCycles - core.cycles + 1 else 0
      {
        ghost var s := core.Abs();
        ghost var k := BlockTurnIsTurns(decoder.env, decoder.mop, s);
        TurnsSum(decoder.env, decoder.mop, s0, turns, k);
        turns := turns + k;
        error := TurnOfTraces();
        if error.Some? {
          if Exits(decoder.env, decoder.mop, s0, turns) { ExitsLaw(decoder.env, decoder.mop, s0, turns); }
          return;
        }
        TurnsCycles(decoder.env, decoder.mop, s, k);
      }
      if HostNeverStops(decoder.env) { EndsByExit(decoder.env, decoder.mop, s0, turns); }
      if Exits(decoder.env, decoder.mop, s0, turns) { ExitsLaw(decoder.env, decoder.mop, s0, turns); }
      return None, core.exitCode, turns;
    }
  }

  /**
   The trace machine refines the single-stepper: with the same number of loop turns allowed, a run of the plain
   machine that ends leaves the same state here, one that fails fails here, and nothing else ever ends or fails.
   */
  method TraceRefines(machine: TraceMachine, n: nat) returns (error: Option<Error>, ghost k: nat)
    requires machine.Valid() && TameHost(machine.decoder.env)
    modifies machine.core.Repr(), machine.traces, machine.decoder.instructionsCache
    ensures machine.core.Valid() && k <= TRACE_ITEM_LENGTH * n
    ensures var r := Turns(machine.decoder.env, machine.decoder.mop, old(machine.core.Abs()), k);
            if error.None? then r == Ok(machine.core.Abs()) else r.Err?
    ensures var r := Turns(machine.decoder.env, machine.decoder.mop, old(machine.core.Abs()), n);
            && (r.Ok? && !r.value.running ==> error.None? && machine.core.Abs() == r.value)
            && (r.Err? ==> error.Some?)
  {
    hide Turns, BlockTurns, machine.core.memory.Memory, machine.core.memory.Valid, TameHost;
    ghost var s, env, mop := machine.core.Abs(), machine.decoder.env, machine.decoder.mop;
    k := TraceIsTurns(env, mop, s, n);
    ghost var r := Turns(env, mop, s, n);
    if r.Err? || !r.value.running { TurnsIsTrace(env, mop, s, n); }
    error := machine.RunTraces(n);
  }
}
