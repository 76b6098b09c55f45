/**
 Load-reserved and store-conditional over whole runs (src/instructions/execute.rs, src/machine/mod.rs),
 against section 8.2 of the RISC-V Unprivileged ISA 20191213.
 */
module Reservations {
  import opened Words
  import opened PagedMemory
  import opened Instructions
  import opened Machine
  import opened Stepper

  /** What a completed step means for the reservation. */
  datatype AtomicStep = Reserve(addr: U64) | Release | Other

  predicate IsAtomic(i: Inst, op: AOp) { i.body.Atomic? && i.body.aop == op }

  function AtomicStepOf(i: Inst, s: State, s1: State): AtomicStep {
    if IsAtomic(i, LR) then Reserve(s.regs[i.body.rs1])
    else if IsAtomic(i, SC) || s1.resetSignal then Release
    else Other
  }

  /** The completed steps of the first `n` turns. */
  ghost function History(env: Env, mop: bool, s: State, n: nat): seq<AtomicStep>
  {
    if n == 0 then []
    else
      var h, r := History(env, mop, s, n - 1), Turns(env, mop, s, n - 1);
      if r.Err? || !r.value.running then h
      else
        var t := r.value.(resetSignal := false);
        match Decode(env, mop, t.mem, t.pc)
        case Err(_) => h
        case Ok(i) => match Perform(env, i, t) case Err(_) => h case Ok(t1) => h + [AtomicStepOf(i, t, t1)]
  }

  /** The latest load-reserved, with no store-conditional or reset since, was to `addr`. */
  ghost predicate ReservedAt(h: seq<AtomicStep>, addr: U64) {
    exists j :: 0 <= j < |h| && h[j] == Reserve(addr) && forall k :: j < k < |h| ==> h[k] == Other
  }

  /** The value of the reservation register that stands for a history. */
  ghost predicate Stands(lr: U64, h: seq<AtomicStep>) {
    && (lr == U64_MAX ==> forall a :: !ReservedAt(h, a))
    && (lr != U64_MAX ==> forall a :: ReservedAt(h, a) <==> a == lr)
  }

  lemma {:induction false} StandsAtStart()
    ensures Stands(U64_MAX, [])
  {
  }

  lemma {:induction false} AfterReserve(h: seq<AtomicStep>, addr: U64)
    requires addr != U64_MAX
    ensures Stands(addr, h + [Reserve(addr)])
  {
    var h' := h + [Reserve(addr)];
    assert h'[|h|] == Reserve(addr);
    assert ReservedAt(h', addr);
  }

  lemma {:induction false} AfterRelease(h: seq<AtomicStep>)
    ensures Stands(U64_MAX, h + [Release])
  {
    var h' := h + [Release];
    assert h'[|h|] == Release;
  }

  lemma {:induction false} AfterOther(h: seq<AtomicStep>, lr: U64)
    requires Stands(lr, h)
    ensures Stands(lr, h + [Other])
  {
    var h' := h + [Other];
    forall a ensures ReservedAt(h', a) <==> ReservedAt(h, a) {
      if ReservedAt(h, a) {
        var j :| 0 <= j < |h| && h[j] == Reserve(a) && forall k :: j < k < |h| ==> h[k] == Other;
        assert h'[j] == Reserve(a);
      }
      if ReservedAt(h', a) {
        var j :| 0 <= j < |h'| && h'[j] == Reserve(a) && forall k :: j < k < |h'| ==> h'[k] == Other;
        assert h[j] == Reserve(a) && forall k :: j < k < |h| ==> h[k] == h'[k];
      }
    }
  }

  /** Host code leaves the reservation alone, or resets the machine, which clears it. */
  ghost predicate HostKeepsReservation(env: Env) {
    && (forall s :: env.syscall(s).Ok? ==> HostLr(s, env.syscall(s).value))
    && (forall s :: env.debugger(s).Ok? ==> HostLr(s, env.debugger(s).value))
  }

  predicate HostLr(s: State, s1: State) {
    s1.mem.lr == if s1.resetSignal then U64_MAX else s.mem.lr
  }

  /** Only LR, SC and a reset change the reservation register. */
  lemma {:induction false} StepReservation(env: Env, i: Inst, s: State)
    requires HostKeepsReservation(env) && !s.resetSignal && Perform(env, i, s).Ok?
    ensures var s1 := Perform(env, i, s).value;
            match AtomicStepOf(i, s, s1)
            case Reserve(a) => s1.mem.lr == a && a != U64_MAX
            case Release => s1.mem.lr == U64_MAX
            case Other => s1.mem.lr == s.mem.lr
  {
    var ready := AddCycles(s, env.cost(i)).value.(nextPc := Add(s.pc, i.len));
    hide Stands, RegisterEffect, IsRegisterOp;
    if i.body.Ecall? || i.body.Ebreak? {
      assert HostKeepsReservation(env);
    } else {
      hide HostKeepsReservation;
      OnlyHostChanges(env, i, ready);
      OrdinaryReservation(env, i, ready);
      hide Handle;
    }
  }

  lemma {:induction false} OrdinaryReservation(env: Env, i: Inst, s: State)
    requires !i.body.Ecall? && !i.body.Ebreak? && Handle(env, i, s).Ok?
    ensures var s1 := Handle(env, i, s).value;
            if IsAtomic(i, LR) then s1.mem.lr == s.regs[i.body.rs1] != U64_MAX
            else if IsAtomic(i, SC) then s1.mem.lr == U64_MAX else s1.mem.lr == s.mem.lr
  {
    hide RegisterEffect, IsRegisterOp, HandleSc, HandleAmo, HandleLr, LoadWord, PagedMemory.Store;
    match i.body {
      case Store(w, rs1, rs2, imm) => StoreKeepsLr(s.mem, Add(s.regs[rs1], FromI32(imm)), w.Bytes(), s.regs[rs2]);
      case Atomic(_, _, _, _, _) => AtomicReservation(env, i, s);
      case _ =>
    }
  }

  lemma {:induction false} StoreKeepsLr(m: Memory, addr: U64, n: nat, value: U64)
    requires n < TWO64
    ensures PagedMemory.Store(m, addr, n, value).mem.lr == m.lr
  {
  }

  /** The sentinel is no address a load completes at. */
  lemma {:induction false} NoLoadAtSentinel(m: Memory, w: Width)
    ensures LoadWord(m, U64_MAX, w).Err?
  {
  }

  lemma {:induction false} AtomicReservation(env: Env, i: Inst, s: State)
    requires i.body.Atomic? && Handle(env, i, s).Ok?
    ensures var s1 := Handle(env, i, s).value;
            if i.body.aop == LR then s1.mem.lr == s.regs[i.body.rs1] != U64_MAX
            else if i.body.aop == SC then s1.mem.lr == U64_MAX else s1.mem.lr == s.mem.lr
  {
    hide LoadWord, PagedMemory.Store, Set;
    var w, addr := if i.body.double then W64 else W32, s.regs[i.body.rs1];
    NoLoadAtSentinel(s.mem, w);
    match i.body.aop {
      case AMO(k) => StoreKeepsLr(s.mem, addr, w.Bytes(), env.amo(k, i.body.double, LoadWord(s.mem, addr, w).value, s.regs[i.body.rs2]));
      case _ =>
    }
  }

  /** Throughout every run the register stands for the history. */
  lemma {:induction false} RegisterStands(env: Env, mop: bool, s: State, n: nat)
    requires HostKeepsReservation(env) && s.mem.lr == U64_MAX && Turns(env, mop, s, n).Ok?
    ensures Stands(Turns(env, mop, s, n).value.mem.lr, History(env, mop, s, n))
  {
    hide Stands, Perform, Decode, HostKeepsReservation;
    if n == 0 {
      StandsAtStart();
    } else {
      TurnsSum(env, mop, s, n - 1, 1);
      var before := Turns(env, mop, s, n - 1).value;
      RegisterStands(env, mop, s, n - 1);
      if before.running {
        OneTurn(env, mop, before);
        var t := before.(resetSignal := false);
        var i := Decode(env, mop, t.mem, t.pc).value;
        StepReservation(env, i, t);
        var h := History(env, mop, s, n - 1);
        match AtomicStepOf(i, t, Perform(env, i, t).value) {
          case Reserve(a) => AfterReserve(h, a);
          case Release => AfterRelease(h);
          case Other => AfterOther(h, t.mem.lr);
        }
      } else {
        StoppedStays(env, mop, before, 1);
      }
    }
  }

  // ---------------------------------------------------------------- store-conditional

  /** Storing back what was loaded changes no byte. */
  lemma {:induction false} StoreBack(m: Memory, addr: U64, w: Width)
    requires LoadWord(m, addr, w).Ok? && PagedMemory.Store(m, addr, w.Bytes(), LoadWord(m, addr, w).value).error.None?
    ensures PagedMemory.Store(m, addr, w.Bytes(), LoadWord(m, addr, w).value).mem.bytes == m.bytes
  {
    hide Mark, LittleEndian, ToLittleEndian, Blocked;
    CheckNoOverflowExact(m, addr, w.Bytes());
    LittleEndianRoundTrip(Slice(m.bytes, addr, w.Bytes()));
  }

  /** The bytes after a store that succeeded. */
  lemma {:induction false} StoreWrites(m: Memory, addr: U64, n: nat, value: U64)
    requires 0 < n <= 8 && PagedMemory.Store(m, addr, n, value).error.None?
    ensures InRange(m, addr, n)
    ensures PagedMemory.Store(m, addr, n, value).mem.bytes == Write(m.bytes, addr, ToLittleEndian(value, n))
  {
  }

  /**
   A completed store-conditional writes 0 exactly when the latest completed load-reserved, with no store-conditional
   or reset since, was to the same address, and 1 otherwise. Then memory holds the value, or is as it was.
   */
  lemma {:induction false} StoreConditional(env: Env, mop: bool, s: State, n: nat, i: Inst)
    requires HostKeepsReservation(env) && s.mem.lr == U64_MAX
    requires var r := Turns(env, mop, s, n);
             && r.Ok? && r.value.running && Decode(env, mop, r.value.mem, r.value.pc) == Ok(i) && IsAtomic(i, SC)
             && Turn(env, mop, r.value).Ok?
    ensures var t := Turns(env, mop, s, n).value;
            var t1 := Turn(env, mop, t).value;
            var addr, value, size := t.regs[i.body.rs1], t.regs[i.body.rs2], if i.body.double then 8 else 4;
            var reserved := ReservedAt(History(env, mop, s, n), addr);
            && t1.regs == Set(t.regs, i.body.rd, if reserved then 0 else 1)
            && addr + size <= |t.mem.bytes|
            && t1.mem.bytes == (if reserved then Write(t.mem.bytes, addr, ToLittleEndian(value, size)) else t.mem.bytes)
            && t1.mem.lr == U64_MAX
  {
    RegisterStands(env, mop, s, n);
    var t := Turns(env, mop, s, n).value;
    hide Turns, History, ReservedAt, Decode, ToLittleEndian, Write;
    var ready := AddCycles(t.(resetSignal := false), env.cost(i)).value.(nextPc := Add(t.pc, i.len));
    ScMemory(env, i, ready);
  }

  /** What one store-conditional does, by its reservation register. */
  lemma {:induction false} ScMemory(env: Env, i: Inst, s: State)
    requires IsAtomic(i, SC) && Handle(env, i, s).Ok?
    ensures var s1 := Handle(env, i, s).value;
            var addr, value, size := s.regs[i.body.rs1], s.regs[i.body.rs2], if i.body.double then 8 else 4;
            && s1.regs == Set(s.regs, i.body.rd, if addr == s.mem.lr then 0 else 1)
            && addr != U64_MAX && addr + size <= |s.mem.bytes| && s1.mem.lr == U64_MAX
            && s1.mem.bytes == (if addr == s.mem.lr then Write(s.mem.bytes, addr, ToLittleEndian(value, size)) else s.mem.bytes)
  {
    hide LoadWord, PagedMemory.Store, Set, ToLittleEndian, Write;
    var w, addr := if i.body.double then W64 else W32, s.regs[i.body.rs1];
    NoLoadAtSentinel(s.mem, w);
    var loaded := LoadWord(s.mem, addr, w).value;
    if addr == s.mem.lr {
      StoreWrites(s.mem, addr, w.Bytes(), s.regs[i.body.rs2]);
    } else {
      StoreWrites(s.mem, addr, w.Bytes(), loaded);
      StoreBack(s.mem, addr, w);
    }
  }
}
