/**
 What happens to a machine and its snapshot context between two snapshots: turns of the run loop, host code, resets, programs
 loaded and marked, data stored from the source. For each event, exactly when it keeps the record sound.
 */
module Sessions {
  import opened Words
  import opened PagedMemory
  import opened Instructions
  import opened Machine
  import opened Stepper
  import opened Snapshots
  import opened Tracking

  // ---------------------------------------------------------------- turns of the run loop

  /** Host code makes the pages it changes dirty, as every store does, or resets memory and does so from there. */
  ghost predicate HostMarks(env: Env) {
    && (forall s :: env.syscall(s).Ok? ==> MarksOrResets(s.mem, env.syscall(s).value.mem))
    && (forall s :: env.debugger(s).Ok? ==> MarksOrResets(s.mem, env.debugger(s).value.mem))
  }

  ghost predicate MarksOrResets(m: Memory, m': Memory) { MarksChanges(m, m') || MarksChanges(BlankLike(m), m') }

  lemma {:induction false} WordMarks(m: Memory, addr: U64, w: Width, value: U64)
    ensures MarksChanges(m, PagedMemory.Store(m, addr, w.Bytes(), value).mem)
  {
    hide MarksChanges, StoreBytes;
    StoreMarks(m, addr, ToLittleEndian(value, w.Bytes()));
  }

  lemma {:induction false} AtomicMarks(env: Env, i: Inst, s: State)
    requires i.body.Atomic? && Handle(env, i, s).Ok?
    ensures MarksChanges(s.mem, Handle(env, i, s).value.mem)
  {
    hide LoadWord, PagedMemory.Store, MarksChanges;
    var w, addr := if i.body.double then W64 else W32, s.regs[i.body.rs1];
    match i.body.aop {
      case LR => LrMarks(s.mem, addr);
      case SC =>
        var stored := if addr == s.mem.lr then s.regs[i.body.rs2] else LoadWord(s.mem, addr, w).value;
        WordMarks(s.mem, addr, w, stored);
        var m := PagedMemory.Store(s.mem, addr, w.Bytes(), stored).mem;
        LrMarks(m, U64_MAX);
        MarksTwice(s.mem, m, m.(lr := U64_MAX));
      case AMO(k) =>
        WordMarks(s.mem, addr, w, env.amo(k, i.body.double, LoadWord(s.mem, addr, w).value, s.regs[i.body.rs2]));
    }
  }

  lemma {:induction false} HandleMarks(env: Env, i: Inst, s: State)
    requires HostMarks(env) && Handle(env, i, s).Ok?
    ensures MarksOrResets(s.mem, Handle(env, i, s).value.mem)
    ensures !i.body.Ecall? && !i.body.Ebreak? ==> MarksChanges(s.mem, Handle(env, i, s).value.mem)
  {
    hide RegisterEffect, IsRegisterOp, HandleSc, HandleAmo, HandleLr, LoadWord, PagedMemory.Store, MarksChanges;
    SelfMarks(s.mem);
    match i.body {
      case Store(w, rs1, rs2, imm) => WordMarks(s.mem, Add(s.regs[rs1], FromI32(imm)), w, s.regs[rs2]);
      case Atomic(_, _, _, _, _) => AtomicMarks(env, i, s);
      case _ =>
    }
  }

  lemma {:induction false} LeftMarks(env: Env, i: Inst, s: State)
    requires HostMarks(env) && LeftBehind(env, i, s).Some?
    ensures MarksOrResets(s.mem, LeftBehind(env, i, s).value.mem)
    ensures !i.body.Ecall? ==> MarksChanges(s.mem, LeftBehind(env, i, s).value.mem)
  {
    hide LoadWord, MarksChanges, SignExtendWidth;
    SelfMarks(s.mem);
  }

  /**
   The machine after a turn, and whether there is one to go on from: faults leave a machine as well, out of cycles or
   not, unless it was host code that failed.
   */
  function TurnOf(env: Env, mop: bool, s: State): (State, bool) {
    if !s.running then (s, true)
    else
      match Turn(env, mop, s)
      case Ok(s1) => (s1, true)
      case Err(_) => match TurnLeft(env, mop, s) case Some(left) => (left, true) case None => (s, false)
  }

  /** The next instruction goes to the host. */
  predicate AtHost(env: Env, mop: bool, s: State) {
    var d := Decode(env, mop, s.mem, s.pc); s.running && d.Ok? && (d.value.body.Ecall? || d.value.body.Ebreak?)
  }

  /** Every turn of the loop makes the pages it changes dirty, unless the host resets the machine. */
  lemma {:induction false} TurnMarks(env: Env, mop: bool, s: State)
    requires HostMarks(env)
    ensures MarksOrResets(s.mem, TurnOf(env, mop, s).0.mem)
    ensures !AtHost(env, mop, s) ==> MarksChanges(s.mem, TurnOf(env, mop, s).0.mem)
  {
    hide Handle, Decode, MarksChanges, HostMarks, LeftBehind;
    SelfMarks(s.mem);
    var s0 := s.(resetSignal := false);
    var d := Decode(env, mop, s0.mem, s0.pc);
    if s.running && d.Ok? && AddCycles(s0, env.cost(d.value)).Ok? {
      var paid := AddCycles(s0, env.cost(d.value)).value;
      if Turn(env, mop, s).Ok? {
        HandleMarks(env, d.value, paid.(nextPc := Add(s0.pc, d.value.len)));
      } else if LeftBehind(env, d.value, paid).Some? {
        LeftMarks(env, d.value, paid);
      }
    }
  }

  lemma {:induction false} NoTurn(env: Env, mop: bool, s: State)
    requires !s.running
    ensures TurnOf(env, mop, s) == (s, true)
  {
  }

  // ---------------------------------------------------------------- events

  datatype Event =
    | Start
    | TurnOnce
    | Host(op: Op)
    | SetRegister(r: Reg, value: U64)
    | SetMaxCycles(limit: U64)
    | Reset(maxCycles: U64)
    | LoadProgram(program: seq<Byte>, segments: seq<LoadingAction>, entry: U64)
    | MarkProgram(actions: seq<LoadingAction>, id: Id, offset: nat)
    | StoreSource(addr: U64, from: Id, at: nat, length: nat, sizeAddr: U64)

  /** The record of a context and the machine it is about. */
  datatype Session = Session(pages: map<nat, Origin>, s: State) {
    ghost predicate Sound(contents: Id -> Option<seq<Byte>>) { Snapshots.Sound(contents, pages, s.mem) }

    function Tracked(): Tracked { Tracking.Tracked(pages, s.mem) }

    function With(t: Tracked): Session { Session(t.pages, s.(mem := t.mem)) }
  }

  /** What the types and the segment loader guarantee. Host code that sets or clears flags itself is not among the events. */
  ghost predicate Admissible(load: Loader, e: Event) {
    match e
    case Host(op) => Ordinary(op)
    case LoadProgram(program, actions, _) => |program| < TWO63 && forall i :: 0 <= i < |actions| ==> WellFormed(actions[i], program)
    case MarkProgram(actions, _, _) => forall i :: 0 <= i < |actions| ==> Trackable(actions[i])
    case StoreSource(_, id, offset, length, _) => load(id, offset, length).Some? ==> |load(id, offset, length).value.0| < TWO63
    case _ => true
  }

  /** `reset`: a new memory, and everything but the next pc set back. */
  function ResetState(s: State, maxCycles: U64): State {
    s.(regs := seq(32, i => 0), pc := 0, mem := BlankLike(s.mem), cycles := 0, maxCycles := maxCycles, resetSignal := true)
  }

  /** One event, whatever comes of it, and whether the session goes on. */
  ghost function After(load: Loader, env: Env, mop: bool, x: Session, e: Event): (Session, bool)
    requires Admissible(load, e)
  {
    match e
    case Start => (x.(s := x.s.(running := true)), true)
    case TurnOnce => var (s, ok) := TurnOf(env, mop, x.s); (x.(s := s), ok)
    case Host(op) => (x.(s := x.s.(mem := Apply(x.s.mem, op).0)), true)
    case SetRegister(r, v) => (x.(s := x.s.(regs := Set(x.s.regs, r, v))), true)
    case SetMaxCycles(limit) => (x.(s := x.s.(maxCycles := limit)), true)
    case Reset(maxCycles) => (x.(s := ResetState(x.s, maxCycles)), true)
    case LoadProgram(program, actions, entry) =>
      var o := LoadFrom(x.s.mem, program, actions, 0);
      (x.(s := if o.error.Some? then x.s.(mem := o.mem) else x.s.(mem := o.mem, pc := entry, nextPc := entry)), true)
    case MarkProgram(actions, id, offset) => (x.With(MarkFrom(x.Tracked(), actions, id, offset, 0).state), true)
    case StoreSource(addr, id, offset, length, sizeAddr) =>
      (x.With(StoreData(load, x.Tracked(), addr, id, offset, length, sizeAddr).0), true)
  }

  ghost function AfterAll(load: Loader, env: Env, mop: bool, x: Session, events: seq<Event>, i: nat): (Session, bool)
    requires i <= |events| && forall j :: 0 <= j < |events| ==> Admissible(load, events[j])
    decreases |events| - i
  {
    if i == |events| then (x, true)
    else
      var (x', ok) := After(load, env, mop, x, events[i]);
      if ok then AfterAll(load, env, mop, x', events, i + 1) else (x', false)
  }

  /** As many turns as the loop makes are as many events. */
  lemma {:induction false} TurnsAreEvents(load: Loader, env: Env, mop: bool, x: Session, events: seq<Event>, i: nat)
    requires i <= |events| && forall j :: 0 <= j < |events| ==> events[j] == TurnOnce
    requires Turns(env, mop, x.s, |events| - i).Ok?
    ensures forall j :: 0 <= j < |events| ==> Admissible(load, events[j])
    ensures AfterAll(load, env, mop, x, events, i) == (x.(s := Turns(env, mop, x.s, |events| - i).value), true)
    decreases |events| - i
  {
    hide Turn, TurnLeft;
    if i < |events| {
      TurnsAreEvents(load, env, mop, After(load, env, mop, x, events[i]).0, events, i + 1);
    }
  }

  // ---------------------------------------------------------------- soundness, exactly

  /** What an event needs to keep the record sound: only loads that meet a frozen page, marks and resets need anything. */
  ghost predicate Keeps(load: Loader, contents: Id -> Option<seq<Byte>>, env: Env, mop: bool, x: Session, e: Event)
    requires Admissible(load, e)
  {
    match e
    case TurnOnce =>
      var m := TurnOf(env, mop, x.s).0.mem; MarksChanges(x.s.mem, m) || RecordsBlank(contents, x.pages, m)
    case Reset(_) => RecordsBlank(contents, x.pages, BlankLike(x.s.mem))
    case LoadProgram(program, actions, _) => LoadTidy(x.s.mem, program, actions, 0)
    case MarkProgram(actions, id, offset) => MarkHolds(contents, x.s.mem, actions, id, offset)
    case _ => true
  }

  lemma {:induction false} TurnExact(contents: Id -> Option<seq<Byte>>, env: Env, mop: bool, x: Session)
    requires HostMarks(env) && x.Sound(contents)
    ensures var m := TurnOf(env, mop, x.s).0.mem;
            Snapshots.Sound(contents, x.pages, m) <==> MarksChanges(x.s.mem, m) || RecordsBlank(contents, x.pages, m)
  {
    hide Snapshots.Sound, HostMarks, TurnOf, MarksChanges, RecordsBlank;
    var m := TurnOf(env, mop, x.s).0.mem;
    TurnMarks(env, mop, x.s);
    if MarksChanges(x.s.mem, m) {
      MarkingKeepsSound(contents, x.pages, x.s.mem, m);
    } else {
      SameLength(BlankLike(x.s.mem), m);
      ResetExact(contents, x.pages, x.s.mem, m);
    }
  }

  lemma {:induction false} SameLength(m: Memory, m': Memory)
    requires MarksChanges(m, m')
    ensures |m'.flags| == |m.flags|
  {
  }

  /** No instruction but ECALL and EBREAK needs anything. */
  lemma {:induction false} PlainTurnKeeps(load: Loader, contents: Id -> Option<seq<Byte>>, env: Env, mop: bool, x: Session)
    requires HostMarks(env) && !AtHost(env, mop, x.s)
    ensures Keeps(load, contents, env, mop, x, TurnOnce)
  {
    hide HostMarks, TurnOf, MarksChanges, AtHost, RecordsBlank;
    TurnMarks(env, mop, x.s);
  }

  lemma {:induction false} EventExact(load: Loader, contents: Id -> Option<seq<Byte>>, env: Env, mop: bool, x: Session, e: Event)
    requires Stable(load, contents) && HostMarks(env) && Admissible(load, e) && x.Sound(contents)
    ensures After(load, env, mop, x, e).0.Sound(contents) <==> Keeps(load, contents, env, mop, x, e)
  {
    hide Snapshots.Sound, Apply, StoreData, LoadFrom, MarkFrom, LoadTidy, MarkHolds, Stable, HostMarks, TurnOf, MarksChanges, Set, RecordsBlank;
    match e {
      case TurnOnce => TurnExact(contents, env, mop, x);
      case Host(op) =>
        OrdinaryMarks(x.s.mem, op);
        MarkingKeepsSound(contents, x.pages, x.s.mem, Apply(x.s.mem, op).0);
      case Reset(_) =>
        SelfMarks(BlankLike(x.s.mem));
        ResetExact(contents, x.pages, x.s.mem, BlankLike(x.s.mem));
      case LoadProgram(program, actions, entry) => LoadExact(contents, x.pages, x.s.mem, program, actions, 0);
      case MarkProgram(actions, id, offset) => MarkExact(contents, x.Tracked(), actions, id, offset);
      case StoreSource(addr, id, offset, length, sizeAddr) =>
        StoreDataKeepsSound(load, contents, x.Tracked(), addr, id, offset, length, sizeAddr);
      case _ =>
    }
  }

  ghost predicate KeepsAll(load: Loader, contents: Id -> Option<seq<Byte>>, env: Env, mop: bool, x: Session, events: seq<Event>, i: nat)
    requires i <= |events| && forall j :: 0 <= j < |events| ==> Admissible(load, events[j])
    decreases |events| - i
  {
    i == |events|
    || (Keeps(load, contents, env, mop, x, events[i])
        && var (x', ok) := After(load, env, mop, x, events[i]); ok ==> KeepsAll(load, contents, env, mop, x', events, i + 1))
  }

  /** The record is sound before and after every event. */
  ghost predicate SoundAll(load: Loader, contents: Id -> Option<seq<Byte>>, env: Env, mop: bool, x: Session, events: seq<Event>, i: nat)
    requires i <= |events| && forall j :: 0 <= j < |events| ==> Admissible(load, events[j])
    decreases |events| - i
  {
    x.Sound(contents)
    && (i < |events| ==>
          var (x', ok) := After(load, env, mop, x, events[i]);
          x'.Sound(contents) && (ok ==> SoundAll(load, contents, env, mop, x', events, i + 1)))
  }

  /** Over any session every page stays accounted for if and only if every load, mark and reset on the way keeps it so. */
  lemma {:induction false} EventsExact(
      load: Loader, contents: Id -> Option<seq<Byte>>, env: Env, mop: bool, x: Session, events: seq<Event>, i: nat)
    requires Stable(load, contents) && HostMarks(env) && x.Sound(contents)
    requires i <= |events| && forall j :: 0 <= j < |events| ==> Admissible(load, events[j])
    ensures SoundAll(load, contents, env, mop, x, events, i) <==> KeepsAll(load, contents, env, mop, x, events, i)
    ensures KeepsAll(load, contents, env, mop, x, events, i) ==> AfterAll(load, env, mop, x, events, i).0.Sound(contents)
    decreases |events| - i
  {
    hide Snapshots.Sound, Keeps, After, Stable, HostMarks, Admissible;
    if i < |events| {
      EventExact(load, contents, env, mop, x, events[i]);
      var (x', ok) := After(load, env, mop, x, events[i]);
      if ok && x'.Sound(contents) { EventsExact(load, contents, env, mop, x', events, i + 1); }
    }
  }

  // ---------------------------------------------------------------- the exit code

  function WithExit(r: Result<State>, code: int): Result<State> {
    match r case Ok(s) => Ok(s.(exitCode := code)) case Err(e) => Err(e)
  }

  /** Host code is given the inner machine, which has no exit code. */
  ghost predicate HostIgnoresExit(env: Env) {
    && (forall s: State, code: int :: env.syscall(s.(exitCode := code)) == WithExit(env.syscall(s), code))
    && (forall s: State, code: int :: env.debugger(s.(exitCode := code)) == WithExit(env.debugger(s), code))
  }

  lemma {:induction false} ExitHandle(env: Env, i: Inst, s: State, code: int)
    requires HostIgnoresExit(env)
    ensures var r, r' := Handle(env, i, s), Handle(env, i, s.(exitCode := code));
            if IsExit(i, s) then r.Ok? && r' == r else r' == WithExit(r, code) && (r.Ok? ==> r.value.exitCode == s.exitCode)
  {
    if i.body.Ecall? || i.body.Ebreak? {
      hide RegisterEffect, HostIgnoresExit, HandleSc, HandleAmo, HandleLr, LoadWord, WithStore, BranchTaken;
      ExitSyscall(env, s, code);
    } else {
      hide Handle;
      ExitPlain(env, i, s, code);
      if Handle(env, i, s).Ok? { OnlyHostChanges(env, i, s); }
    }
  }

  lemma {:induction false} ExitPlain(env: Env, i: Inst, s: State, code: int)
    requires !i.body.Ecall? && !i.body.Ebreak?
    ensures Handle(env, i, s.(exitCode := code)) == WithExit(Handle(env, i, s), code)
  {
    if i.body.Atomic? {
      ExitAtomic(env, i, s, code);
    } else {
      hide RegisterEffect, IsRegisterOp, LoadWord, PagedMemory.Store, HandleSc, HandleAmo, HandleLr, HandleEcall, BranchTaken, SignExtendWidth;
    }
  }

  lemma {:induction false} ExitAtomic(env: Env, i: Inst, s: State, code: int)
    requires i.body.Atomic?
    ensures Handle(env, i, s.(exitCode := code)) == WithExit(Handle(env, i, s), code)
  {
    hide HandleLr, HandleSc, HandleAmo, RegisterEffect;
    var w, rd, addr, value := if i.body.double then W64 else W32, i.body.rd, s.regs[i.body.rs1], s.regs[i.body.rs2];
    match i.body.aop {
      case LR => ExitLr(s, w, rd, addr, code);
      case SC => ExitSc(s, w, rd, addr, value, code);
      case AMO(k) => ExitAmo(env, s, k, i.body.double, rd, addr, value, code);
    }
  }

  lemma {:induction false} ExitLr(s: State, w: Width, rd: Reg, addr: U64, code: int)
    ensures HandleLr(s.(exitCode := code), w, rd, addr) == WithExit(HandleLr(s, w, rd, addr), code)
  {
    hide LoadWord;
  }

  lemma {:induction false} ExitSc(s: State, w: Width, rd: Reg, addr: U64, value: U64, code: int)
    ensures HandleSc(s.(exitCode := code), w, rd, addr, value) == WithExit(HandleSc(s, w, rd, addr, value), code)
  {
    hide LoadWord, PagedMemory.Store;
  }

  lemma {:induction false} ExitAmo(env: Env, s: State, k: AmoKind, double: bool, rd: Reg, addr: U64, value: U64, code: int)
    ensures HandleAmo(env, s.(exitCode := code), k, double, rd, addr, value) == WithExit(HandleAmo(env, s, k, double, rd, addr, value), code)
  {
    hide LoadWord, PagedMemory.Store;
  }

  predicate ApartInExit(left: Option<State>, left': Option<State>, before: int, code: int) {
    && left.Some? == left'.Some?
    && (left.Some? ==> left'.value == left.value.(exitCode := code) && left.value.exitCode == before)
  }

  lemma {:induction false} ExitLeft(env: Env, i: Inst, s: State, code: int)
    requires HostIgnoresExit(env)
    ensures ApartInExit(LeftBehind(env, i, s), LeftBehind(env, i, s.(exitCode := code)), s.exitCode, code)
  {
    hide HandlerLeft, HostIgnoresExit;
    ExitHandlerLeft(env, i.body, s.(nextPc := Add(s.pc, i.len)), code);
  }

  lemma {:induction false} ExitHandlerLeft(env: Env, b: Body, s: State, code: int)
    requires HostIgnoresExit(env)
    ensures ApartInExit(HandlerLeft(env, b, s), HandlerLeft(env, b, s.(exitCode := code)), s.exitCode, code)
  {
    hide LoadWord, SignExtendWidth, Set;
    if b.Ecall? { ExitSyscall(env, s, code); }
  }

  lemma {:induction false} ExitSyscall(env: Env, s: State, code: int)
    requires HostIgnoresExit(env)
    ensures env.syscall(s.(exitCode := code)) == WithExit(env.syscall(s), code)
    ensures env.syscall(s).Ok? ==> env.syscall(s).value.exitCode == s.exitCode
    ensures env.debugger(s.(exitCode := code)) == WithExit(env.debugger(s), code)
    ensures env.debugger(s).Ok? ==> env.debugger(s).value.exitCode == s.exitCode
  {
    assert env.syscall(s.(exitCode := s.exitCode)) == WithExit(env.syscall(s), s.exitCode);
    assert env.debugger(s.(exitCode := s.exitCode)) == WithExit(env.debugger(s), s.exitCode);
    assert s.(exitCode := s.exitCode) == s;
  }

  lemma {:induction false} ExitTurn(env: Env, mop: bool, s: State, code: int)
    requires HostIgnoresExit(env)
    ensures var t, ((s', ok), (t', ok')) := s.(exitCode := code), (TurnOf(env, mop, s), TurnOf(env, mop, s.(exitCode := code)));
            && TurnExits(env, mop, s) == TurnExits(env, mop, t) && ok == ok'
            && if TurnExits(env, mop, s) then t' == s' else t' == s'.(exitCode := code) && s'.exitCode == s.exitCode
    ensures var r, r' := Turn(env, mop, s), Turn(env, mop, s.(exitCode := code));
            s.running ==> (if TurnExits(env, mop, s) then r.Ok? && r' == r && !r.value.running
                           else r' == WithExit(r, code) && (r.Ok? ==> r.value.exitCode == s.exitCode))
  {
    hide Handle, Decode, LeftBehind, HostIgnoresExit;
    var s0 := s.(resetSignal := false);
    var d := Decode(env, mop, s.mem, s.pc);
    if d.Ok? && AddCycles(s0, env.cost(d.value)).Ok? {
      var paid := AddCycles(s0, env.cost(d.value)).value;
      ExitHandle(env, d.value, paid.(nextPc := Add(paid.pc, d.value.len)), code);
      ExitLeft(env, d.value, paid, code);
      if IsExit(d.value, s) { ExitStops(env, d.value, paid.(nextPc := Add(paid.pc, d.value.len))); }
    }
  }

  /** An exit code from before is still there after a run exactly when the run has not failed and the program has not exited. */
  lemma {:induction false} ExitApart(env: Env, mop: bool, s: State, code: int, n: nat)
    requires HostIgnoresExit(env)
    ensures var r, r' := Turns(env, mop, s, n), Turns(env, mop, s.(exitCode := code), n);
            && r' == (if r.Ok? && !Exits(env, mop, s, n) then WithExit(r, code) else r)
            && (r.Ok? && !Exits(env, mop, s, n) ==> r.value.exitCode == s.exitCode)
    decreases n
  {
    hide Turn, TurnOf, HostIgnoresExit, TurnExits;
    if n > 0 && s.running {
      ExitTurn(env, mop, s, code);
      var r := Turn(env, mop, s);
      if r.Ok? {
        if TurnExits(env, mop, s) {
          StoppedStays(env, mop, r.value, n - 1);
        } else {
          ExitApart(env, mop, r.value, code, n - 1);
        }
      }
    }
  }

  // ---------------------------------------------------------------- going on from a snapshot

  /** Two machines that differ in the exit code and in what the next turn overwrites. */
  predicate Interchangeable(s: State, t: State) { t == s.(nextPc := t.nextPc, resetSignal := t.resetSignal, exitCode := t.exitCode) }

  lemma {:induction false} NextPcIgnored(env: Env, mop: bool, s: State, t: State)
    requires t == s.(nextPc := t.nextPc, resetSignal := t.resetSignal) && s.running
    ensures Turn(env, mop, s) == Turn(env, mop, t)
    ensures TurnOf(env, mop, s).1 == TurnOf(env, mop, t).1 && Interchangeable(TurnOf(env, mop, s).0, TurnOf(env, mop, t).0)
    ensures TurnExits(env, mop, s) == TurnExits(env, mop, t) && TurnOf(env, mop, s).0.exitCode == TurnOf(env, mop, t).0.exitCode
  {
    hide Decode, Handle, HandlerLeft;
  }

  /** If the two have the same exit code, or the host cannot see it, a turn leaves two such machines. */
  lemma {:induction false} TurnAlike(env: Env, mop: bool, s: State, t: State)
    requires Interchangeable(s, t) && (s.exitCode == t.exitCode || HostIgnoresExit(env))
    ensures var ((s', ok), (t', ok')) := (TurnOf(env, mop, s), TurnOf(env, mop, t));
            && ok == ok' && Interchangeable(s', t') && TurnExits(env, mop, s) == TurnExits(env, mop, t)
            && (s'.exitCode == t'.exitCode <==> s.exitCode == t.exitCode || TurnExits(env, mop, s))
  {
    hide TurnOf, TurnExits, HostIgnoresExit;
    if s.running {
      var u := s.(exitCode := t.exitCode);
      if s.exitCode != t.exitCode { ExitTurn(env, mop, s, t.exitCode); } else { assert u == s; }
      NextPcIgnored(env, mop, u, t);
    } else {
      NoTurn(env, mop, s);
      NoTurn(env, mop, t);
      NoExit(env, mop, s);
      NoExit(env, mop, t);
    }
  }

  lemma {:induction false} NoExit(env: Env, mop: bool, s: State)
    requires !s.running
    ensures !TurnExits(env, mop, s)
  {
  }

  lemma {:induction false} TurnsAlike(env: Env, mop: bool, s: State, t: State, n: nat)
    requires t == s.(nextPc := t.nextPc, resetSignal := t.resetSignal) && s.running && n > 0
    ensures Turns(env, mop, s, n) == Turns(env, mop, t, n)
  {
    hide Turn, TurnOf, TurnExits;
    NextPcIgnored(env, mop, s, t);
  }

  /** Records that agree on the pages that are not dirty. */
  ghost predicate SameRecord(m: Memory, pages: map<nat, Origin>, pages': map<nat, Origin>) {
    forall p :: 0 <= p < |m.flags| && !m.flags[p].dirty ==> (p in pages <==> p in pages') && (p in pages ==> pages[p] == pages'[p])
  }

  ghost predicate AlikeSessions(x: Session, y: Session) { Interchangeable(x.s, y.s) && SameRecord(x.s.mem, x.pages, y.pages) }

  /** Dirty pages stay dirty. */
  predicate DirtyStays(m: Memory, m': Memory) {
    |m'.flags| == |m.flags| && forall p :: 0 <= p < |m.flags| && m.flags[p].dirty ==> m'.flags[p].dirty
  }

  lemma {:induction false} RecordStays(m: Memory, m': Memory, pages: map<nat, Origin>, pages': map<nat, Origin>)
    requires SameRecord(m, pages, pages') && DirtyStays(m, m')
    ensures SameRecord(m', pages, pages')
  {
  }

  lemma {:induction false} MarksStay(m: Memory, m': Memory)
    requires MarksChanges(m, m')
    ensures DirtyStays(m, m')
  {
    forall p | 0 <= p < |m.flags| && m.flags[p].dirty ensures m'.flags[p].dirty {
      assert PageKept(m, m', p);
    }
  }

  lemma {:induction false} SegmentStays(m: Memory, action: LoadingAction, program: seq<Byte>)
    requires WellFormed(action, program)
    ensures DirtyStays(m, LoadSegment(m, action, program).mem)
  {
    hide Image;
  }

  lemma {:induction false} LoadStays(m: Memory, program: seq<Byte>, actions: seq<LoadingAction>, i: nat)
    requires i <= |actions| && forall j :: 0 <= j < |actions| ==> WellFormed(actions[j], program)
    ensures DirtyStays(m, LoadFrom(m, program, actions, i).mem)
    decreases |actions| - i
  {
    hide LoadSegment;
    if i < |actions| {
      SegmentStays(m, actions[i], program);
      var o := LoadSegment(m, actions[i], program);
      if o.error.None? { LoadStays(o.mem, program, actions, i + 1); }
    }
  }

  lemma {:induction false} MarkRecord(t: Tracked, u: Tracked, actions: seq<LoadingAction>, id: Id, offset: nat)
    requires t.mem == u.mem && SameRecord(t.mem, t.pages, u.pages) && forall j :: 0 <= j < |actions| ==> Trackable(actions[j])
    ensures var t', u' := MarkFrom(t, actions, id, offset, 0).state, MarkFrom(u, actions, id, offset, 0).state;
            t'.mem == u'.mem && SameRecord(t'.mem, t'.pages, u'.pages)
  {
    hide MarkFrom, MarkedOrigin;
    MarkMemory(t, u, actions, id, offset, 0);
    var t', u' := MarkFrom(t, actions, id, offset, 0).state, MarkFrom(u, actions, id, offset, 0).state;
    MarkKeepsShape(t, actions, id, offset, 0);
    forall p | 0 <= p < |t'.mem.flags| && !t'.mem.flags[p].dirty
      ensures (p in t'.pages <==> p in u'.pages) && (p in t'.pages ==> t'.pages[p] == u'.pages[p])
    {
      MarkedPage(t, actions, id, offset, 0, p);
      MarkedPage(u, actions, id, offset, 0, p);
    }
  }

  /** What happens to memory does not depend on the record. */
  lemma {:induction false} MarkMemory(t: Tracked, u: Tracked, actions: seq<LoadingAction>, id: Id, offset: nat, i: nat)
    requires t.mem == u.mem && i <= |actions| && forall j :: 0 <= j < |actions| ==> Trackable(actions[j])
    ensures MarkFrom(t, actions, id, offset, i).state.mem == MarkFrom(u, actions, id, offset, i).state.mem
    decreases |actions| - i
  {
    hide Track, SegmentStart, SegmentLength;
    if i < |actions| {
      assert Trackable(actions[i]);
      var start, length, at := SegmentStart(actions[i]), SegmentLength(actions[i]), offset + actions[i].sourceStart;
      TrackMemory(t, u, start, length, id, at);
      MarkMemory(Track(t, start, length, id, at).state, Track(u, start, length, id, at).state, actions, id, offset, i + 1);
    }
  }

  lemma {:induction false} TrackMemory(t: Tracked, u: Tracked, start: U64, length: nat, id: Id, offset: nat)
    requires t.mem == u.mem
    ensures var t', u' := Track(t, start, length, id, offset), Track(u, start, length, id, offset);
            t'.error == u'.error && t'.state.mem == u'.state.mem && |t'.state.mem.flags| == |t.mem.flags|
  {
    hide FirstWhole, WholePages, Gap, Recorded, Cleaned;
  }

  lemma {:induction false} TrackRecord(t: Tracked, u: Tracked, start: U64, length: nat, id: Id, offset: nat)
    requires t.mem == u.mem && SameRecord(t.mem, t.pages, u.pages)
    ensures var t', u' := Track(t, start, length, id, offset), Track(u, start, length, id, offset);
            t'.error == u'.error && t'.state.mem == u'.state.mem && SameRecord(t'.state.mem, t'.state.pages, u'.state.pages)
  {
    hide FirstWhole, WholePages, Gap, Track;
    TrackMemory(t, u, start, length, id, offset);
    var t', u' := Track(t, start, length, id, offset).state, Track(u, start, length, id, offset).state;
    forall p | 0 <= p < |t'.mem.flags| && !t'.mem.flags[p].dirty
      ensures (p in t'.pages <==> p in u'.pages) && (p in t'.pages ==> t'.pages[p] == u'.pages[p])
    {
      TrackedPage(t, start, length, id, offset, p);
      TrackedPage(u, start, length, id, offset, p);
    }
  }

  lemma {:induction false} UntrackRecord(t: Tracked, u: Tracked, start: U64, length: nat)
    requires t.mem == u.mem && SameRecord(t.mem, t.pages, u.pages) && length < TWO64
    ensures var t', u' := Untrack(t, start, length), Untrack(u, start, length);
            t'.error == u'.error && t'.state.mem == u'.state.mem && SameRecord(t'.state.mem, t'.state.pages, u'.state.pages)
  {
    hide PageOf;
  }

  lemma {:induction false} StoreRecord(
      load: Loader, t: Tracked, u: Tracked, addr: U64, id: Id, offset: nat, length: nat, sizeAddr: U64)
    requires load(id, offset, length).Some? ==> |load(id, offset, length).value.0| < TWO63
    requires t.mem == u.mem && SameRecord(t.mem, t.pages, u.pages)
    ensures var t', u' := StoreData(load, t, addr, id, offset, length, sizeAddr).0, StoreData(load, u, addr, id, offset, length, sizeAddr).0;
            t'.mem == u'.mem && SameRecord(t'.mem, t'.pages, u'.pages)
  {
    hide Track, Untrack, StoreBytes, PagedMemory.Store, SameRecord, MarksChanges, DirtyStays;
    var loaded := load(id, offset, length);
    if loaded.Some? {
      var data, full := loaded.value.0, loaded.value.1;
      WordMarks(t.mem, sizeAddr, W64, full);
      var m := PagedMemory.Store(t.mem, sizeAddr, 8, full).mem;
      MarksStay(t.mem, m);
      RecordStays(t.mem, m, t.pages, u.pages);
      UntrackRecord(t.(mem := m), u.(mem := m), addr, |data|);
      var t1, u1 := Untrack(t.(mem := m), addr, |data|).state, Untrack(u.(mem := m), addr, |data|).state;
      StoreMarks(t1.mem, addr, data);
      var m1 := StoreBytes(t1.mem, addr, data).mem;
      MarksStay(t1.mem, m1);
      RecordStays(t1.mem, m1, t1.pages, u1.pages);
      TrackRecord(t1.(mem := m1), u1.(mem := m1), addr, |data|, id, offset);
    }
  }

  /** Sessions a host cannot tell apart. */
  ghost predicate Indifferent(env: Env, x: Session, y: Session) {
    Interchangeable(x.s, y.s) && (x.s.exitCode == y.s.exitCode || HostIgnoresExit(env))
  }

  predicate EventExits(env: Env, mop: bool, x: Session, e: Event) { e.TurnOnce? && TurnExits(env, mop, x.s) }

  /** An event leaves two machines alike whatever the records are; exit codes meet when the program exits. */
  lemma {:induction false} EventAlike(load: Loader, env: Env, mop: bool, x: Session, y: Session, e: Event)
    requires Admissible(load, e) && Indifferent(env, x, y)
    ensures var ((x', ok), (y', ok')) := (After(load, env, mop, x, e), After(load, env, mop, y, e));
            && ok == ok' && Indifferent(env, x', y') && EventExits(env, mop, x, e) == EventExits(env, mop, y, e)
            && (x'.s.exitCode == y'.s.exitCode <==> x.s.exitCode == y.s.exitCode || EventExits(env, mop, x, e))
  {
    hide Apply, StoreData, LoadFrom, MarkFrom, HostIgnoresExit, TurnOf, TurnExits, Set;
    match e {
      case TurnOnce => TurnAlike(env, mop, x.s, y.s);
      case MarkProgram(actions, id, offset) => MarkMemory(x.Tracked(), y.Tracked(), actions, id, offset, 0);
      case StoreSource(addr, id, offset, length, sizeAddr) =>
        StoreMemory(load, x.Tracked(), y.Tracked(), addr, id, offset, length, sizeAddr);
      case _ =>
    }
  }

  lemma {:induction false} StoreMemory(
      load: Loader, t: Tracked, u: Tracked, addr: U64, id: Id, offset: nat, length: nat, sizeAddr: U64)
    requires load(id, offset, length).Some? ==> |load(id, offset, length).value.0| < TWO63
    requires t.mem == u.mem
    ensures StoreData(load, t, addr, id, offset, length, sizeAddr).0.mem == StoreData(load, u, addr, id, offset, length, sizeAddr).0.mem
  {
    hide Track, Untrack, StoreBytes, PagedMemory.Store;
    var loaded := load(id, offset, length);
    if loaded.Some? {
      var data, full := loaded.value.0, loaded.value.1;
      var m := PagedMemory.Store(t.mem, sizeAddr, 8, full).mem;
      UntrackMemory(t.(mem := m), u.(mem := m), addr, |data|);
      var t1, u1 := Untrack(t.(mem := m), addr, |data|).state, Untrack(u.(mem := m), addr, |data|).state;
      var m1 := StoreBytes(t1.mem, addr, data).mem;
      TrackMemory(t1.(mem := m1), u1.(mem := m1), addr, |data|, id, offset);
    }
  }

  lemma {:induction false} UntrackMemory(t: Tracked, u: Tracked, start: U64, length: nat)
    requires t.mem == u.mem && length < TWO64
    ensures Untrack(t, start, length).error == Untrack(u, start, length).error
    ensures Untrack(t, start, length).state.mem == Untrack(u, start, length).state.mem
  {
    hide PageOf, Mark, Dropped;
  }

  /** The event does not reset the machine. */
  ghost predicate NoReset(env: Env, mop: bool, x: Session, e: Event) {
    !e.Reset? && (e.TurnOnce? ==> MarksChanges(x.s.mem, TurnOf(env, mop, x.s).0.mem))
  }

  /** Records stay the same on clean pages unless the machine is reset, which makes pages clean. */
  lemma {:induction false} RecordAlike(load: Loader, env: Env, mop: bool, x: Session, y: Session, e: Event)
    requires Admissible(load, e) && x.s.mem == y.s.mem && SameRecord(x.s.mem, x.pages, y.pages) && NoReset(env, mop, x, e)
    ensures var (x', y') := (After(load, env, mop, x, e).0, After(load, env, mop, y, e).0); SameRecord(x'.s.mem, x'.pages, y'.pages)
  {
    hide Apply, StoreData, LoadFrom, MarkFrom, TurnOf, MarksChanges, SameRecord, DirtyStays, Set;
    match e {
      case TurnOnce =>
        MarksStay(x.s.mem, TurnOf(env, mop, x.s).0.mem);
        RecordStays(x.s.mem, TurnOf(env, mop, x.s).0.mem, x.pages, y.pages);
      case Host(op) =>
        OrdinaryMarks(x.s.mem, op);
        MarksStay(x.s.mem, Apply(x.s.mem, op).0);
        RecordStays(x.s.mem, Apply(x.s.mem, op).0, x.pages, y.pages);
      case LoadProgram(program, actions, entry) =>
        LoadStays(x.s.mem, program, actions, 0);
        RecordStays(x.s.mem, LoadFrom(x.s.mem, program, actions, 0).mem, x.pages, y.pages);
      case MarkProgram(actions, id, offset) => MarkRecord(x.Tracked(), y.Tracked(), actions, id, offset);
      case StoreSource(addr, id, offset, length, sizeAddr) =>
        StoreRecord(load, x.Tracked(), y.Tracked(), addr, id, offset, length, sizeAddr);
      case _ =>
    }
  }

  /** A reset keeps the records the same exactly when they agree on all pages. */
  lemma {:induction false} ResetRecord(m: Memory, pages: map<nat, Origin>, pages': map<nat, Origin>)
    ensures SameRecord(BlankLike(m), pages, pages') <==>
            forall p :: 0 <= p < |m.flags| ==> (p in pages <==> p in pages') && (p in pages ==> pages[p] == pages'[p])
  {
  }

  /** The program exits in one of the events from number `i` on. */
  ghost predicate ExitsIn(load: Loader, env: Env, mop: bool, x: Session, events: seq<Event>, i: nat)
    requires i <= |events| && forall j :: 0 <= j < |events| ==> Admissible(load, events[j])
    decreases |events| - i
  {
    i < |events|
    && (EventExits(env, mop, x, events[i])
        || var (x', ok) := After(load, env, mop, x, events[i]); ok && ExitsIn(load, env, mop, x', events, i + 1))
  }

  ghost predicate NeverReset(load: Loader, env: Env, mop: bool, x: Session, events: seq<Event>, i: nat)
    requires i <= |events| && forall j :: 0 <= j < |events| ==> Admissible(load, events[j])
    decreases |events| - i
  {
    i < |events| ==>
      NoReset(env, mop, x, events[i])
      && var (x', ok) := After(load, env, mop, x, events[i]); ok ==> NeverReset(load, env, mop, x', events, i + 1)
  }

  /**
   Whatever comes later, the machines of two such sessions stay alike, and so do the records if none of it is a reset;
   the exit codes are the same at the end exactly when they were before or the program has exited since.
   */
  lemma {:induction false} EventsAlike(load: Loader, env: Env, mop: bool, x: Session, y: Session, events: seq<Event>, i: nat)
    requires Indifferent(env, x, y)
    requires i <= |events| && forall j :: 0 <= j < |events| ==> Admissible(load, events[j])
    ensures var ((x', ok), (y', ok')) := (AfterAll(load, env, mop, x, events, i), AfterAll(load, env, mop, y, events, i));
            && ok == ok' && Indifferent(env, x', y')
            && (x'.s.exitCode == y'.s.exitCode <==> x.s.exitCode == y.s.exitCode || ExitsIn(load, env, mop, x, events, i))
            && (SameRecord(x.s.mem, x.pages, y.pages) && NeverReset(load, env, mop, x, events, i) ==>
                  SameRecord(x'.s.mem, x'.pages, y'.pages))
    decreases |events| - i
  {
    hide After, Admissible, HostIgnoresExit, EventExits, NoReset, SameRecord;
    if i < |events| {
      EventAlike(load, env, mop, x, y, events[i]);
      if SameRecord(x.s.mem, x.pages, y.pages) && NoReset(env, mop, x, events[i]) { RecordAlike(load, env, mop, x, y, events[i]); }
      var ((x', ok), (y', ok')) := (After(load, env, mop, x, events[i]), After(load, env, mop, y, events[i]));
      if ok { EventsAlike(load, env, mop, x', y', events, i + 1); }
    }
  }
}
