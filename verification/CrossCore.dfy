/**
 Suspending on one core and resuming on another (src/snapshot2.rs, src/machine/asm/mod.rs): the operations a resume
 performs, performed on the memory of the assembly core and on the interpreter's.
 */
module CrossCores {
  import opened Words
  import opened PagedMemory
  import opened SparseMemories
  import opened WXorX
  import opened AsmMemories
  import opened AsmRuns
  import opened Cores
  import opened Snapshots
  import opened Restoring
  import opened Snapshot2
  import LazyFrames

  function HostAccesses(ops: seq<Op>): seq<Access> { seq(|ops|, i requires 0 <= i < |ops| => Host(ops[i])) }

  lemma {:induction false} HostPossible(ops: seq<Op>)
    requires Quiet(ops)
    ensures forall a :: a in HostAccesses(ops) ==> Possible(a)
  {
  }

  /** Host operations on the interpreter are a run of them; none of them is a fault. */
  lemma {:induction false} HostRun(m: Memory, ops: seq<Op>, i: nat)
    requires Quiet(ops) && i <= |ops|
    ensures forall a :: a in HostAccesses(ops) ==> Possible(a)
    ensures RunFrom(Interpreter, Run(m, ops[..i]).0, HostAccesses(ops), i).0 == Run(m, ops).0
    decreases |ops| - i
  {
    hide Apply;
    HostPossible(ops);
    if i == |ops| {
      assert ops[..i] == ops;
    } else {
      assert ops[..i + 1][..i] == ops[..i];
      HostRun(m, ops, i + 1);
    }
  }

  /** Without `init_pages` nothing parts the cores. */
  lemma {:induction false} QuietNeverParts(asm: Memory, plain: Memory, ops: seq<Op>, i: nat)
    requires Quiet(ops) && i <= |ops|
    ensures forall a :: a in HostAccesses(ops) ==> Possible(a)
    ensures NeverPart(asm, plain, HostAccesses(ops), i)
    decreases |ops| - i
  {
    hide AccessStep, PartsAt;
    HostPossible(ops);
    if i < |ops| {
      NoParting(asm, plain, ops[i]);
      QuietNeverParts(AccessStep(Assembly, asm, Host(ops[i])).0, AccessStep(Interpreter, plain, Host(ops[i])).0, ops, i + 1);
    }
  }

  /** The host's operations never fault. */
  lemma {:induction false} NoFaults(core: Core, m: Memory, ops: seq<Op>, i: nat)
    requires Quiet(ops) && i <= |ops|
    ensures forall a :: a in HostAccesses(ops) ==> Possible(a)
    ensures !RunFrom(core, m, HostAccesses(ops), i).2
    decreases |ops| - i
  {
    hide AccessStep;
    HostPossible(ops);
    if i < |ops| { NoFaults(core, AccessStep(core, m, Host(ops[i])).0, ops, i + 1); }
  }

  /** What a resume does to the interpreter's memory it does to the assembly core's. */
  lemma {:induction false} ResumesAlike(m: Memory, ops: seq<Op>, was: Memory)
    requires Via(m, ops, was)
    ensures forall a :: a in HostAccesses(ops) ==> Possible(a)
    ensures Alike(RunFrom(Assembly, m, HostAccesses(ops), 0).0, was) && !RunFrom(Assembly, m, HostAccesses(ops), 0).2
    ensures Quiet(ops) && Run(m, ops).0 == was
  {
    hide RunFrom, NeverPart, AlikeThroughout, Alike, Run, AlikeAnswers;
    HostRun(m, ops, 0);
    assert ops[..0] == [];
    EmptyRun(m);
    NoFaults(Assembly, m, ops, 0);
    QuietNeverParts(m, m, ops, 0);
    SelfAlike(m);
    CoresAgree(m, m, HostAccesses(ops), 0);
  }

  lemma {:induction false} EmptyRun(m: Memory)
    ensures Run(m, []).0 == m
  {
  }

  /** A snapshot, and the operations resuming it performs on memory. */
  method SnapshotOps(context: Snapshot2Context, guest: Guest) returns (ops: seq<Op>)
    requires context.Valid() && Sound(context.contents, context.pages, guest.mem)
    ensures |guest.mem.flags| * PAGE < TWO63 && Via(Fresh(|guest.mem.flags|), ops, guest.mem)
  {
    hide Via, Sound, SourceRuns, DirtyRuns, AllSourceOps, AllDirtyOps;
    AllPagesFit(guest.mem);
    var other := new Guest(guest.env, guest.mop, 0, |guest.mem.flags|);
    var snapshot, error, context' := SuspendAndResume(context, guest, other);
    ops := ResumeOps(context.load, snapshot.value);
  }

  method ResumeOnAssembly(frameCount: nat, ops: seq<Op>, ghost was: Memory) returns (core: AsmMemory)
    requires 0 < frameCount * LazyFrames.FRAME < TWO63 && Via(Fresh(frameCount * LazyFrames.FRAME_PAGES), ops, was)
    ensures core.Valid() && core.Shortcuts() && Alike(core.Memory(), was)
    ensures fresh(core) && fresh(core.memory) && fresh(core.flags) && fresh(core.frames)
  {
    hide RunFrom, Alike, Via, Run;
    ResumesAlike(Fresh(frameCount * LazyFrames.FRAME_PAGES), ops, was);
    core := new AsmMemory(frameCount);
    var replies, faulted := AsmRuns.PerformAll(core, HostAccesses(ops));
  }

  method ResumeOnInterpreter(pageCount: nat, sparse: bool, ops: seq<Op>, ghost was: Memory) returns (memory: WXorXMemory)
    requires pageCount * PAGE < TWO63 && (sparse ==> pageCount <= INVALID_PAGE_INDEX) && Via(Fresh(pageCount), ops, was)
    ensures memory.Valid() && memory.Memory() == was && fresh(memory.inner.Repr())
  {
    hide Run, SameReplies;
    memory := NewMemory(pageCount, sparse);
    var replies := memory.PerformAll(ops);
  }

  /**
   A machine suspended on either core, resumed on both: the interpreter's memory is the suspended one and the assembly
   core's is alike, and whatever accesses follow, the two reply alike as long as none of them parts them.
   */
  method ResumeOnBoth(context: Snapshot2Context, guest: Guest, frameCount: nat, sparse: bool, later: seq<Access>)
    returns (core: AsmMemory, memory: WXorXMemory, asm: seq<Reply>, plain: seq<Reply>, asmFaulted: bool, plainFaulted: bool,
             ghost resumed: Memory)
    requires context.Valid() && Sound(context.contents, context.pages, guest.mem)
    requires 0 < frameCount * LazyFrames.FRAME < TWO63 && |guest.mem.flags| == frameCount * LazyFrames.FRAME_PAGES
    requires (sparse ==> |guest.mem.flags| <= INVALID_PAGE_INDEX) && forall a :: a in later ==> Possible(a)
    ensures core.Valid() && memory.Valid() && Alike(resumed, guest.mem)
    ensures (core.Memory(), asm, asmFaulted) == RunFrom(Assembly, resumed, later, 0)
    ensures memory.Memory() == RunFrom(Interpreter, guest.mem, later, 0).0
    ensures AlikeThroughout(resumed, guest.mem, later, 0) <==> NeverPart(resumed, guest.mem, later, 0)
    ensures NeverPart(resumed, guest.mem, later, 0) ==>
              Alike(core.Memory(), memory.Memory()) && asmFaulted == plainFaulted && AlikeAnswers(later, 0, asm, plain)
  {
    hide RunFrom, AlikeThroughout, NeverPart, AlikeAnswers, SameAnswers, Alike, Fresh, Via, Sound, Possible;
    ghost var was := guest.mem;
    var ops := SnapshotOps(context, guest);
    core := ResumeOnAssembly(frameCount, ops, was);
    resumed := core.Memory();
    asm, asmFaulted := AsmRuns.PerformAll(core, later);
    memory := ResumeOnInterpreter(frameCount * LazyFrames.FRAME_PAGES, sparse, ops, was);
    memory, plain, plainFaulted := RunPlain(memory, later);
    CoresAgree(resumed, was, later, 0);
    if NeverPart(resumed, was, later, 0) { AlikeThenSame(later, asm, RunFrom(Interpreter, was, later, 0).1, plain); }
  }
}
