/**
 Even program counters (src/decoder.rs, src/instructions/execute.rs). Nothing forces the pc to be even, but a run that
 starts at one stays there, so every fetch of it may be read one halfword at a time.
 */
module EvenRuns {
  import opened Words
  import opened PagedMemory
  import opened Instructions
  import opened Machine
  import opened Fusion
  import opened Decoders
  import opened Stepper

  /** Branch and jump offsets are even, as the instruction set encodes them. */
  predicate EvenOffset(b: Body) {
    (b.Branch? ==> b.imm % 2 == 0) && (b.U? && b.uop == JAL ==> b.imm % 2 == 0)
  }

  ghost predicate EvenFactories(factories: seq<U32 -> Option<RawInst>>) {
    forall f, bits: U32 :: f in factories && f(bits).Some? ==> EvenOffset(f(bits).value.body)
  }

  /** Host code leaves an even next pc even. */
  ghost predicate HostKeepsEven(env: Env) {
    && (forall s :: env.syscall(s).Ok? && Even(s.nextPc) ==> Even(env.syscall(s).value.nextPc))
    && (forall s :: env.debugger(s).Ok? && Even(s.nextPc) ==> Even(env.debugger(s).value.nextPc))
  }

  lemma {:induction false} EvenSum(a: U64, b: U64)
    requires Even(a) && Even(b)
    ensures Even(Add(a, b))
  {
  }

  lemma {:induction false} EvenImmediate(imm: I32)
    requires imm % 2 == 0
    ensures Even(FromI32(imm))
  {
  }

  lemma {:induction false} EvenCleared(a: U64)
    ensures Even(ClearBit0(a))
  {
  }

  lemma {:induction false} FactoryEven(factories: seq<U32 -> Option<RawInst>>, bits: U32)
    requires EvenFactories(factories) && FirstMatch(factories, bits).Some?
    ensures EvenOffset(FirstMatch(factories, bits).value.body)
  {
    if factories[0](bits).None? {
      assert forall f :: f in factories[1..] ==> f in factories;
      FactoryEven(factories[1..], bits);
    }
  }

  /** What is decoded, fused or not, has an even length and even offsets. */
  lemma {:induction false} DecodedEven(env: Env, mop: bool, m: Memory, pc: U64)
    requires EvenFactories(env.factories) && Decode(env, mop, m, pc).Ok?
    ensures var i := Decode(env, mop, m, pc).value; Even(i.len) && EvenOffset(i.body)
  {
    hide DecodeBits, FirstMatch, EvenFactories, Window, Fuse, EvenOffset;
    FactoryEven(env.factories, DecodeBits(m, pc).value);
    if mop {
      WindowHead(env, m, pc, LOOKAHEAD);
      var w := Window(env, m, pc, LOOKAHEAD);
      if Fuse(env.version, pc, w).Some? { FusedEven(env.version, pc, w); }
    }
  }

  lemma {:induction false} FusedEven(version: nat, pc: U64, w: seq<RawInst>)
    requires |w| > 0 && Fuse(version, pc, w).Some?
    ensures var f := Fuse(version, pc, w).value; Even(f.len) && EvenOffset(f.body)
  {
    hide Length, Even, WrapI32;
    EvenStart();
    forall n: nat | n <= |w| ensures Even(Length(w, n)) { EvenLength(0, w, n); }
  }

  lemma {:induction false} EvenStart()
    ensures Even(0)
  {
  }

  lemma {:induction false} HandleEven(env: Env, i: Inst, s: State)
    requires HostKeepsEven(env) && Even(s.pc) && Even(s.nextPc) && Even(i.len) && EvenOffset(i.body) && Handle(env, i, s).Ok?
    ensures Even(Handle(env, i, s).value.nextPc)
  {
    hide RegisterEffect, LoadWord, PagedMemory.Store, Add, ClearBit0, FromI32, Even, HandleSc, HandleAmo, HandleLr;
    match i.body {
      case I(_, _, rs1, imm) => EvenCleared(Add(s.regs[rs1], FromI32(imm)));
      case U(op, _, imm) =>
        EvenCleared(Add(s.pc, FromI32(imm)));
        EvenCleared(FromI32(imm));
        if op == JAL {
          EvenImmediate(imm);
          EvenSum(s.pc, FromI32(imm));
        }
      case Branch(_, _, _, imm) =>
        EvenImmediate(imm);
        EvenSum(FromI32(imm), s.pc);
        EvenSum(i.len, s.pc);
      case Atomic(_, _, _, _, _) => AtomicChanges(env, i, s);
      case _ =>
    }
  }

  lemma {:induction false} TurnEven(env: Env, mop: bool, s: State)
    requires EvenFactories(env.factories) && HostKeepsEven(env) && Even(s.pc) && Turn(env, mop, s).Ok?
    ensures Even(Turn(env, mop, s).value.pc)
  {
    hide Decode, Handle, Even, EvenOffset, EvenFactories, HostKeepsEven;
    DecodedEven(env, mop, s.mem, s.pc);
    var i := Decode(env, mop, s.mem, s.pc).value;
    var paid := AddCycles(s.(resetSignal := false), env.cost(i)).value;
    EvenSum(s.pc, i.len);
    HandleEven(env, i, paid.(nextPc := Add(s.pc, i.len)));
  }

  /** Every state a run from an even pc reaches has one, and all it looks at there may be fetched by halfwords. */
  lemma {:induction false} RunFetchesHalfwords(env: Env, mop: bool, s: State, n: nat)
    requires EvenFactories(env.factories) && HostKeepsEven(env) && Even(s.pc) && Turns(env, mop, s, n).Ok?
    ensures var t := Turns(env, mop, s, n).value;
            var w := Window(env, t.mem, t.pc, LOOKAHEAD);
            && Even(t.pc)
            && forall i: nat :: i <= |w| && t.pc + Length(w, i) < TWO64 ==>
                 DecodeRaw(env, t.mem, t.pc + Length(w, i)) == DecodeHalfwords(env, t.mem, t.pc + Length(w, i))
    decreases n
  {
    hide Turn, DecodeRaw, DecodeHalfwords, Window, Length, EvenFactories, HostKeepsEven;
    if n > 0 && s.running {
      TurnEven(env, mop, s);
      RunFetchesHalfwords(env, mop, Turn(env, mop, s).value, n - 1);
    } else {
      var w := Window(env, s.mem, s.pc, LOOKAHEAD);
      forall i: nat | i <= |w| && s.pc + Length(w, i) < TWO64
        ensures DecodeRaw(env, s.mem, s.pc + Length(w, i)) == DecodeHalfwords(env, s.mem, s.pc + Length(w, i))
      {
        EvenLength(s.pc, w, i);
        HalfwordsAgree(env, s.mem, s.pc + Length(w, i));
      }
    }
  }
}
