/** Whole runs of accesses to the assembly core's memory, compiled and host ones mixed. */
module AsmRuns {
  import opened Words
  import opened PagedMemory
  import opened AsmMemories
  import LazyFrames

  /** Host operations on the assembly core's memory, on the plain memory it stands for. */
  function AsmApply(m: Memory, op: Op): (Memory, Reply)
    requires Feasible(op)
  {
    match op
    case OpInit(a, s, f, src, o) => ReplyOf(InitRange(m, a, s, f, src, o))
    case OpStoreBytes(a, d) => ReplyOf(StoreRange(m, a, d))
    case OpStoreByte(a, s, v) => ReplyOf(StoreRange(m, a, Repeat(s, v)))
    case OpStore(a, w, v) => ReplyOf(StoreWord(m, a, w.Bytes(), v))
    case OpExecuteLoad(a, w) => (m, match FetchWord(m, a, w.Bytes()) case Ok(v) => Value(v) case Err(e) => Failed(e))
    case _ => Apply(m, op)
  }

  datatype Access =
    | Host(op: Op)
    | Read(addr: U64, width: Width)
    | Write(addr: U64, width: Width, value: U64)
    | Reset

  predicate Possible(a: Access) { a.Host? ==> Feasible(a.op) }

  /** Compiled code is left at its first failing access. */
  predicate Faults(a: Access, reply: Reply) { !a.Host? && reply.Failed? }

  datatype Core = Assembly | Interpreter

  function ApplyOn(core: Core, m: Memory, op: Op): (Memory, Reply)
    requires Feasible(op)
  {
    if core.Assembly? then AsmApply(m, op) else Apply(m, op)
  }

  function AccessStep(core: Core, m: Memory, a: Access): (r: (Memory, Reply))
    requires Possible(a)
  {
    match a
    case Host(op) => ApplyOn(core, m, op)
    case Read(addr, w) => ApplyOn(core, m, OpLoad(addr, w))
    case Write(addr, w, v) => ApplyOn(core, m, OpStore(addr, w, v))
    case Reset => AllPagesFit(m); (Fresh(|m.flags|), Done)
  }

  lemma {:induction false} AllPagesFit(m: Memory)
    ensures |m.flags| * PAGE < TWO63
  {
  }

  /** The accesses from number `i` on, up to the first fault: the memory reached, the replies, and whether it faulted. */
  function RunFrom(core: Core, m: Memory, accesses: seq<Access>, i: nat): (r: (Memory, seq<Reply>, bool))
    requires i <= |accesses| && forall a :: a in accesses ==> Possible(a)
    decreases |accesses| - i
  {
    if i == |accesses| then (m, [], false)
    else
      var (m1, reply) := AccessStep(core, m, accesses[i]);
      if Faults(accesses[i], reply) then (m1, [reply], true)
      else
        var (m2, replies, faulted) := RunFrom(core, m1, accesses, i + 1);
        (m2, [reply] + replies, faulted)
  }

  method PerformHost(core: AsmMemory, op: Op) returns (reply: Reply)
    requires core.Valid() && core.Shortcuts() && Feasible(op)
    modifies core, core.memory, core.flags, core.frames
    ensures core.Valid() && core.Shortcuts() && (core.Memory(), reply) == AsmApply(old(core.Memory()), op)
  {
    hide InitRange, StoreRange, StoreWord, FetchWord, PagedMemory.Load, PagedMemory.LoadBytes, core.Bytes;
    var error: Option<Error> := None;
    match op {
      case OpInit(a, s, f, src, o) => error := core.InitPages(a, s, f, src, o);
      case OpSetFlag(p, f) => error := core.SetFlag(p, f);
      case OpClearFlag(p, f) => error := core.ClearFlag(p, f);
      case OpStoreBytes(a, d) => error := core.StoreBytes(a, d);
      case OpStoreByte(a, s, v) => error := core.StoreByte(a, s, v);
      case OpStore(a, w, v) => error := core.Store(a, w.Bytes(), v);
      case OpSetLr(v) => core.lr := v;
      case _ =>
        reply := QueryHost(core, op);
        return;
    }
    return if error.Some? then Failed(error.value) else Done;
  }

  method QueryHost(core: AsmMemory, op: Op) returns (reply: Reply)
    requires core.Valid() && core.Shortcuts()
    requires op.OpFetchFlag? || op.OpLoad? || op.OpLoadBytes? || op.OpExecuteLoad? || op.OpLr?
    modifies core.memory, core.frames
    ensures core.Valid() && core.Shortcuts() && core.Memory() == old(core.Memory())
    ensures reply == AsmApply(core.Memory(), op).1
  {
    hide FetchWord, PagedMemory.Load, PagedMemory.LoadBytes;
    match op {
      case OpFetchFlag(p) =>
        var r := core.FetchFlag(p);
        return match r case Ok(f) => Flag(f) case Err(e) => Failed(e);
      case OpLoad(a, w) =>
        var r := core.Load(a, w.Bytes());
        return match r case Ok(v) => Value(v) case Err(e) => Failed(e);
      case OpLoadBytes(a, s) =>
        var r := core.LoadBytes(a, s);
        return match r case Ok(bs) => Bytes(bs) case Err(e) => Failed(e);
      case OpExecuteLoad(a, w) =>
        var r := core.ExecuteLoad(a, w.Bytes());
        return match r case Ok(v) => Value(v) case Err(e) => Failed(e);
      case OpLr =>
        return Value(core.lr);
    }
  }

  method PerformAccess(core: AsmMemory, a: Access) returns (reply: Reply)
    requires core.Valid() && core.Shortcuts() && Possible(a)
    modifies core, core.memory, core.flags, core.frames
    ensures core.Valid() && (core.Memory(), reply) == AccessStep(Assembly, old(core.Memory()), a)
    ensures !Faults(a, reply) ==> core.Shortcuts()
  {
    hide StoreWord, PagedMemory.Load;
    match a {
      case Host(op) =>
        hide AsmApply;
        reply := PerformHost(core, op);
      case Read(addr, w) =>
        var r := core.Read(addr, w.Bytes());
        return match r case Ok(v) => Value(v) case Err(e) => Failed(e);
      case Write(addr, w, v) =>
        var error := core.Write(addr, w.Bytes(), v);
        return if error.Some? then Failed(error.value) else Done;
      case Reset =>
        core.Reset();
        return Done;
    }
  }

  /**
   Over every run that has not faulted the lazily cleared memory, shortcuts included, is a plain zeroed
   byte array: same replies, same final bytes and flags, whatever the allocator left behind.
   */
  method PerformAll(core: AsmMemory, accesses: seq<Access>) returns (replies: seq<Reply>, faulted: bool)
    requires core.Valid() && core.Shortcuts() && forall a :: a in accesses ==> Possible(a)
    modifies core, core.memory, core.flags, core.frames
    ensures core.Valid() && (core.Memory(), replies, faulted) == RunFrom(Assembly, old(core.Memory()), accesses, 0)
    ensures !faulted ==> core.Shortcuts()
  {
    hide AccessStep, Faults, core.Memory;
    replies, faulted := [], false;
    ghost var m0 := core.Memory();
    assert [] + RunFrom(Assembly, m0, accesses, 0).1 == RunFrom(Assembly, m0, accesses, 0).1;
    var i := 0;
    while i < |accesses|
      invariant 0 <= i <= |accesses| && !faulted && core.Valid() && core.Shortcuts()
      invariant var rest := RunFrom(Assembly, core.Memory(), accesses, i);
                RunFrom(Assembly, m0, accesses, 0) == (rest.0, replies + rest.1, rest.2)
    {
      ghost var m := core.Memory();
      var reply := PerformAccess(core, accesses[i]);
      ghost var rest := RunFrom(Assembly, core.Memory(), accesses, i + 1);
      assert (replies + [reply]) + rest.1 == replies + ([reply] + rest.1);
      replies := replies + [reply];
      if Faults(accesses[i], reply) {
        faulted := true;
        return;
      }
      i := i + 1;
    }
    assert replies + [] == replies;
  }

  method FreshRun(frameCount: nat, accesses: seq<Access>) returns (replies: seq<Reply>, faulted: bool)
    requires 0 < frameCount * LazyFrames.FRAME < TWO63 && forall a :: a in accesses ==> Possible(a)
    ensures var r := RunFrom(Assembly, Fresh(frameCount * LazyFrames.FRAME_PAGES), accesses, 0); replies == r.1 && faulted == r.2
  {
    var core := new AsmMemory(frameCount);
    replies, faulted := PerformAll(core, accesses);
  }
}
