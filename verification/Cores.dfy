/** The assembly core's memory against the write-xor-execute memory of the interpreter. */
module Cores {
  import opened Words
  import opened PagedMemory
  import opened SparseMemories
  import opened FlatMemories
  import opened WXorX
  import opened AsmMemories
  import opened AsmRuns
  import LazyFrames

  /** Same bytes, reservation and permissions; the assembly core may have more pages dirty. */
  ghost predicate Alike(asm: Memory, plain: Memory) {
    asm.bytes == plain.bytes && asm.lr == plain.lr && AlikeFlags(asm.flags, plain.flags)
  }

  ghost predicate AlikeFlags(asm: seq<Flags>, plain: seq<Flags>) {
    |asm| == |plain| && forall p :: 0 <= p < |asm| ==> AlikeFlag(asm[p], plain[p])
  }

  predicate AlikeFlag(asm: Flags, plain: Flags) {
    asm.freezed == plain.freezed && asm.executable == plain.executable && (plain.dirty ==> asm.dirty)
  }

  /** A word access that fails may name another cause or address, a flag may be dirty in the assembly core only. */
  predicate AlikeReply(op: Op, asm: Reply, plain: Reply) {
    || asm == plain
    || ((op.OpStore? || op.OpExecuteLoad?) && asm.Failed? && plain.Failed?)
    || (op.OpLoad? && asm.Failed? && plain.Failed? && asm.error.OutOfBound? && plain.error.OutOfBound?)
    || (op.OpFetchFlag? && asm.Flag? && plain.Flag? && AlikeFlag(asm.f, plain.f))
  }

  lemma {:induction false} BlockedAlike(asm: seq<Flags>, plain: seq<Flags>, first: nat, last: int, want: Flags)
    requires AlikeFlags(asm, plain) && last < |asm|
    ensures Blocked(asm, first, last, want) == Blocked(plain, first, last, want)
    decreases last - first
  {
  }

  lemma {:induction false} FreezedAlike(asm: seq<Flags>, plain: seq<Flags>, first: nat, last: int)
    requires AlikeFlags(asm, plain) && last < |asm|
    ensures FirstFreezed(asm, first, last) == FirstFreezed(plain, first, last)
    decreases last - first
  {
  }

  lemma {:induction false} MarkAlike(asm: seq<Flags>, plain: seq<Flags>, first: nat, last: int, f: Flags)
    requires AlikeFlags(asm, plain)
    ensures AlikeFlags(Mark(asm, first, last, f), Mark(plain, first, last, f))
    ensures f == DIRTY ==> AlikeFlags(Mark(asm, first, last, f), plain)
  {
  }

  lemma {:induction false} PutAlike(asm: Memory, plain: Memory, addr: nat, data: seq<Byte>)
    requires Alike(asm, plain) && data != [] && InRange(asm, addr, |data|)
    ensures Alike(Put(asm, addr, data), Put(plain, addr, data))
  {
  }

  lemma {:induction false} StoreRangeAlike(asm: Memory, plain: Memory, addr: U64, data: seq<Byte>)
    requires Alike(asm, plain) && |data| < TWO64
    ensures Alike(StoreRange(asm, addr, data).mem, StoreBytes(plain, addr, data).mem)
    ensures StoreRange(asm, addr, data).error == StoreBytes(plain, addr, data).error
  {
    hide Mark, AlikeFlags, Put, Blocked;
    if data != [] && CheckNoOverflow(addr, |data|, |asm.bytes|).None? {
      CheckNoOverflowExact(asm, addr, |data|);
      AddressParts(addr + |data| - 1);
      var blocked := Blocked(asm.flags, PageOf(addr), LastPage(addr, |data|), WRITABLE);
      BlockedAlike(asm.flags, plain.flags, PageOf(addr), LastPage(addr, |data|), WRITABLE);
      if blocked.Some? {
        var stop: int := blocked.value;
        MarkAlike(asm.flags, plain.flags, PageOf(addr), stop - 1, DIRTY);
      } else {
        PutAlike(asm, plain, addr, data);
      }
    }
  }

  lemma {:induction false} DirtiedAlike(asm: seq<Flags>, plain: seq<Flags>, page: nat)
    requires AlikeFlags(asm, plain) && page < |asm|
    ensures AlikeFlags(Dirtied(asm, page), plain)
  {
  }

  /** The word checks accept exactly what the range and permission checks accept. */
  lemma {:induction false} StoreWordErrorExact(m: Memory, addr: U64, n: nat)
    requires 0 < n <= 8
    ensures StoreWordError(m, addr, n).None? <==> StoreError(m, addr, n).None?
  {
  }

  lemma {:induction false} StoreErrorAlike(asm: Memory, plain: Memory, addr: U64, n: nat)
    requires Alike(asm, plain) && 0 < n <= 8
    ensures StoreError(asm, addr, n) == StoreError(plain, addr, n)
  {
    hide AlikeFlags, Blocked;
    CheckNoOverflowExact(asm, addr, n);
    if InRange(asm, addr, n) {
      AddressParts(addr + n - 1);
      BlockedAlike(asm.flags, plain.flags, PageOf(addr), LastPage(addr, n), WRITABLE);
    }
  }

  lemma {:induction false} StoreWordAlike(asm: Memory, plain: Memory, addr: U64, n: nat, value: U64)
    requires Alike(asm, plain) && 0 < n <= 8
    ensures Alike(StoreWord(asm, addr, n, value).mem, Store(plain, addr, n, value).mem)
    ensures StoreWord(asm, addr, n, value).error.None? <==> Store(plain, addr, n, value).error.None?
  {
    hide AlikeFlags, Dirtied, Put, StoreError, StoreWordError, PageOf, OffsetOf;
    StoreWordErrorExact(asm, addr, n);
    StoreErrorAlike(asm, plain, addr, n);
    if StoreWordError(asm, addr, n).None? {
      StoreWordFits(asm, addr, n);
      PutAlike(asm, plain, addr, ToLittleEndian(value, n));
    } else if PageOf(addr) < |asm.flags| {
      DirtiedAlike(asm.flags, plain.flags, PageOf(addr));
    }
  }

  lemma {:induction false} FetchWordExact(m: Memory, addr: U64, n: nat)
    requires 0 < n <= 8
    ensures FetchWord(m, addr, n) == ExecuteLoad(m, addr, n) || (FetchWord(m, addr, n).Err? && ExecuteLoad(m, addr, n).Err?)
  {
    WordPages(m, addr, n);
    hide PageOf, OffsetOf, LastPage, Load;
    CheckNoOverflowExact(m, addr, n);
    if InRange(m, addr, n) {
      var b := Blocked(m.flags, PageOf(addr), LastPage(addr, n), EXECUTABLE);
      if b.Some? { assert b.value == PageOf(addr) || b.value == PageOf(addr) + 1; }
    }
  }

  lemma {:induction false} ExecuteLoadAlike(asm: Memory, plain: Memory, addr: U64, n: nat)
    requires Alike(asm, plain) && 0 < n <= 8
    ensures ExecuteLoad(asm, addr, n) == ExecuteLoad(plain, addr, n)
  {
    hide AlikeFlags, Blocked;
    CheckNoOverflowExact(asm, addr, n);
    if InRange(asm, addr, n) {
      AddressParts(addr + n - 1);
      BlockedAlike(asm.flags, plain.flags, PageOf(addr), LastPage(addr, n), EXECUTABLE);
    }
  }

  /**
   An `init_pages` that stops at a frozen page: the interpreter has given the pages before it the new flags, the
   assembly core has not. The cores part if one of those pages does not have them already.
   */
  ghost predicate PartsAt(asm: Memory, plain: Memory, op: Op) {
    StopsHalfway(plain, op) && |asm.flags| == |plain.flags|
    && exists p :: PageOf(op.addr) <= p < FirstFreezed(plain.flags, PageOf(op.addr), PageOf(op.addr + op.size) - 1).value
                   && p < |asm.flags| && !AlikeFlag(asm.flags[p], plain.flags[p].Or(op.f))
  }

  lemma {:induction false} MarkedAlike(asm: seq<Flags>, plain: seq<Flags>, first: nat, until: nat, f: Flags)
    requires AlikeFlags(asm, plain) && until <= |asm|
    ensures AlikeFlags(asm, Mark(plain, first, until - 1, f))
            <==> forall p :: first <= p < until ==> AlikeFlag(asm[p], plain[p].Or(f))
  {
    var marked := Mark(plain, first, until - 1, f);
    if forall p :: first <= p < until ==> AlikeFlag(asm[p], plain[p].Or(f)) {
      assert forall p :: 0 <= p < |asm| ==> AlikeFlag(asm[p], marked[p]);
    }
    if AlikeFlags(asm, marked) {
      forall p | first <= p < until ensures AlikeFlag(asm[p], plain[p].Or(f)) {
        assert AlikeFlag(asm[p], marked[p]);
      }
    }
  }

  lemma {:induction false} InitStops(asm: Memory, plain: Memory, op: Op, frozen: nat)
    requires Alike(asm, plain) && Feasible(op) && StopsHalfway(plain, op)
    requires FirstFreezed(plain.flags, PageOf(op.addr), PageOf(op.addr + op.size) - 1) == Some(frozen)
    ensures AsmApply(asm, op) == (asm, Failed(WriteOnFreezed(frozen)))
    ensures Apply(plain, op) == (plain.(flags := Mark(plain.flags, PageOf(op.addr), frozen - 1, op.f)), Failed(WriteOnFreezed(frozen)))
  {
    hide AlikeFlags, Mark, Put, Image, FirstFreezed, PageOf;
    InitPagesExist(plain, op);
    FreezedAlike(asm.flags, plain.flags, PageOf(op.addr), PageOf(op.addr + op.size) - 1);
  }

  lemma {:induction false} InitHalfway(asm: Memory, plain: Memory, op: Op)
    requires Alike(asm, plain) && Feasible(op) && StopsHalfway(plain, op)
    ensures Alike(AsmApply(asm, op).0, Apply(plain, op).0) <==> !PartsAt(asm, plain, op)
    ensures AsmApply(asm, op).1 == Apply(plain, op).1
  {
    hide AlikeFlags, Mark, AlikeFlag, FirstFreezed, PageOf, AsmApply, Apply, InitError;
    var first, last := PageOf(op.addr), PageOf(op.addr + op.size) - 1;
    InitPagesExist(plain, op);
    var frozen := FirstFreezed(plain.flags, first, last).value;
    InitStops(asm, plain, op, frozen);
    FreezedInside(plain.flags, first, last);
    MarkedAlike(asm.flags, plain.flags, first, frozen, op.f);
  }

  lemma {:induction false} InitPagesExist(m: Memory, op: Op)
    requires op.OpInit? && InitError(m, op.addr, op.size, op.offset).None?
    ensures PageOf(op.addr + op.size) <= |m.flags| && InRange(m, op.addr, op.size)
  {
  }

  lemma {:induction false} FreezedInside(flags: seq<Flags>, first: nat, last: int)
    requires last < |flags| && FirstFreezed(flags, first, last).Some?
    ensures first <= FirstFreezed(flags, first, last).value <= last
    decreases last - first
  {
    if !flags[first].freezed { FreezedInside(flags, first + 1, last); }
  }

  lemma {:induction false} InitWhole(asm: Memory, plain: Memory, op: Op)
    requires Alike(asm, plain) && Feasible(op) && op.OpInit? && !StopsHalfway(plain, op)
    ensures Alike(AsmApply(asm, op).0, Apply(plain, op).0) && AsmApply(asm, op).1 == Apply(plain, op).1
  {
    hide AlikeFlags, Mark, Put, Image, AlikeFlag, FirstFreezed, PageOf;
    if InitError(plain, op.addr, op.size, op.offset).None? {
      var first, last := PageOf(op.addr), PageOf(op.addr + op.size) - 1;
      InitPagesExist(plain, op);
      FreezedAlike(asm.flags, plain.flags, first, last);
      MarkAlike(asm.flags, plain.flags, first, last, op.f);
      if op.size > 0 {
        PutAlike(asm.(flags := Mark(asm.flags, first, last, op.f)), plain.(flags := Mark(plain.flags, first, last, op.f)),
                 op.addr, Image(op.size, op.source, op.offset));
      }
    }
  }

  /** From like memories one operation gets like replies always, and leaves like memories unless the cores part at it. */
  lemma {:induction false} ApplyAlike(asm: Memory, plain: Memory, op: Op)
    requires Alike(asm, plain) && Feasible(op)
    ensures Alike(AsmApply(asm, op).0, Apply(plain, op).0) <==> !PartsAt(asm, plain, op)
    ensures AlikeReply(op, AsmApply(asm, op).1, Apply(plain, op).1)
  {
    hide InitRange, InitPages, StoreRange, StoreBytes, StoreWord, Store, FetchWord, ExecuteLoad, InitError, FirstFreezed, Put;
    match op {
      case OpInit(a, s, f, src, o) =>
        if StopsHalfway(plain, op) { InitHalfway(asm, plain, op); } else { InitWhole(asm, plain, op); }
      case OpStoreBytes(a, d) => StoreRangeAlike(asm, plain, a, d);
      case OpStoreByte(a, s, v) =>
        StoreRangeAlike(asm, plain, a, Repeat(s, v));
        StoreByteIsStoreBytes(plain, a, s, v);
      case OpStore(a, w, v) => StoreWordAlike(asm, plain, a, w.Bytes(), v);
      case OpExecuteLoad(a, w) =>
        FetchWordExact(asm, a, w.Bytes());
        ExecuteLoadAlike(asm, plain, a, w.Bytes());
      case _ =>
    }
  }

  lemma {:induction false} StoreByteIsStoreBytes(m: Memory, addr: U64, size: U64, value: Byte)
    ensures StoreByte(m, addr, size, value) == StoreBytes(m, addr, Repeat(size, value))
  {
  }

  /** A page range that is partly frozen tells the cores apart: only the interpreter's pages become executable. */
  lemma {:induction false} HalfwayDiffers() returns (m: Memory, op: Op)
    ensures Feasible(op) && PartsAt(m, m, op)
    ensures AsmApply(m, op).1 == Apply(m, op).1 && !Alike(AsmApply(m, op).0, Apply(m, op).0)
  {
    m := Mem(Zeros(2 * PAGE), [NO_FLAGS, FREEZED], U64_MAX);
    op := OpInit(0, 2 * PAGE, EXECUTABLE, [], 0);
    assert PageOf(0) == 0 && PageOf(2 * PAGE) == 2;
    assert FirstFreezed(m.flags, 0, 1) == Some(1);
    assert !AlikeFlag(m.flags[0], m.flags[0].Or(EXECUTABLE));
    InitHalfway(m, m, op);
  }

  // ---------------------------------------------------------------- runs

  /** The operation of the interface an access amounts to. */
  function OpOf(a: Access): Op
    requires !a.Reset?
  {
    match a case Host(op) => op case Read(addr, w) => OpLoad(addr, w) case Write(addr, w, v) => OpStore(addr, w, v)
  }

  predicate AlikeAnswer(a: Access, asm: Reply, plain: Reply) {
    if a.Reset? then asm == plain else AlikeReply(OpOf(a), asm, plain)
  }

  predicate AlikeAnswers(accesses: seq<Access>, i: nat, asm: seq<Reply>, plain: seq<Reply>) {
    |asm| == |plain| && i + |asm| <= |accesses|
    && forall k :: 0 <= k < |asm| ==> AlikeAnswer(accesses[i + k], asm[k], plain[k])
  }

  ghost predicate Parts(asm: Memory, plain: Memory, a: Access) { !a.Reset? && PartsAt(asm, plain, OpOf(a)) }

  /** The cores do not part at any access of the two runs. */
  ghost predicate NeverPart(asm: Memory, plain: Memory, accesses: seq<Access>, i: nat)
    requires i <= |accesses| && forall a :: a in accesses ==> Possible(a)
    decreases |accesses| - i
  {
    i == |accesses|
    || (!Parts(asm, plain, accesses[i])
        && var (asm1, reply) := AccessStep(Assembly, asm, accesses[i]);
           Faults(accesses[i], reply) || NeverPart(asm1, AccessStep(Interpreter, plain, accesses[i]).0, accesses, i + 1))
  }

  /** The two memories are alike before and after every access of the two runs. */
  ghost predicate AlikeThroughout(asm: Memory, plain: Memory, accesses: seq<Access>, i: nat)
    requires i <= |accesses| && forall a :: a in accesses ==> Possible(a)
    decreases |accesses| - i
  {
    Alike(asm, plain)
    && (i < |accesses| ==>
          var (asm1, reply) := AccessStep(Assembly, asm, accesses[i]);
          var plain1 := AccessStep(Interpreter, plain, accesses[i]).0;
          if Faults(accesses[i], reply) then Alike(asm1, plain1) else AlikeThroughout(asm1, plain1, accesses, i + 1))
  }

  lemma {:induction false} StepAlike(asm: Memory, plain: Memory, a: Access)
    requires Alike(asm, plain) && Possible(a)
    ensures var (x, y) := (AccessStep(Assembly, asm, a), AccessStep(Interpreter, plain, a));
            && (Alike(x.0, y.0) <==> !Parts(asm, plain, a)) && AlikeAnswer(a, x.1, y.1)
            && (x.1.Failed? <==> y.1.Failed?) && (Faults(a, x.1) ==> !Parts(asm, plain, a))
  {
    hide AsmApply, Apply, PartsAt, AlikeFlag;
    if a.Reset? { AllPagesFit(asm); SelfAlike(Fresh(|asm.flags|)); } else { ApplyAlike(asm, plain, OpOf(a)); }
    if !a.Host? && !a.Reset? { NoParting(asm, plain, OpOf(a)); }
  }

  lemma {:induction false} NoParting(asm: Memory, plain: Memory, op: Op)
    requires !op.OpInit?
    ensures !PartsAt(asm, plain, op)
  {
  }

  /**
   The cores' memories stay alike over a whole run if and only if they never part at an access of it; then the
   runs end alike, at the same access and with like replies.
   */
  lemma {:induction false} CoresAgree(asm: Memory, plain: Memory, accesses: seq<Access>, i: nat)
    requires Alike(asm, plain) && i <= |accesses| && forall a :: a in accesses ==> Possible(a)
    ensures AlikeThroughout(asm, plain, accesses, i) <==> NeverPart(asm, plain, accesses, i)
    ensures var (x, y) := (RunFrom(Assembly, asm, accesses, i), RunFrom(Interpreter, plain, accesses, i));
            NeverPart(asm, plain, accesses, i) ==> Alike(x.0, y.0) && x.2 == y.2 && AlikeAnswers(accesses, i, x.1, y.1)
    decreases |accesses| - i
  {
    hide Alike, AlikeAnswer, AccessStep, Parts;
    if i < |accesses| {
      var a := accesses[i];
      StepAlike(asm, plain, a);
      var (x, y) := (AccessStep(Assembly, asm, a), AccessStep(Interpreter, plain, a));
      if Alike(x.0, y.0) { CoresAgree(x.0, y.0, accesses, i + 1); } else { NotThroughout(x.0, y.0, accesses, i + 1); }
    }
  }

  lemma {:induction false} NotThroughout(asm: Memory, plain: Memory, accesses: seq<Access>, i: nat)
    requires !Alike(asm, plain) && i <= |accesses| && forall a :: a in accesses ==> Possible(a)
    ensures !AlikeThroughout(asm, plain, accesses, i)
  {
    hide Alike;
  }

  lemma {:induction false} SelfAlike(m: Memory)
    ensures Alike(m, m)
  {
  }

  // ---------------------------------------------------------------- the two memories at work

  predicate SameAnswer(a: Access, r: Reply, s: Reply) {
    if a.Reset? then r == s else SameReply(OpOf(a), r, s)
  }

  predicate SameAnswers(accesses: seq<Access>, r: seq<Reply>, s: seq<Reply>) {
    |r| == |s| <= |accesses| && forall k :: 0 <= k < |r| ==> SameAnswer(accesses[k], r[k], s[k])
  }

  method NewMemory(pageCount: nat, sparse: bool) returns (memory: WXorXMemory)
    requires pageCount * PAGE < TWO63 && (sparse ==> pageCount <= INVALID_PAGE_INDEX)
    ensures memory.Valid() && memory.Memory() == Fresh(pageCount) && fresh(memory.inner.Repr())
  {
    if sparse {
      var s := new SparseMemory(pageCount);
      memory := new WXorXMemory(Sparse(s));
    } else {
      var f := new FlatMemory(pageCount);
      memory := new WXorXMemory(Flat(f));
    }
  }

  /** One access to the interpreter's memory; a reset replaces the memory by a new one of its size. */
  method PerformPlain(memory: WXorXMemory, a: Access) returns (after: WXorXMemory, reply: Reply)
    requires memory.Valid() && Possible(a)
    modifies memory.inner.Repr()
    ensures after.Valid() && (after == memory || fresh(after.inner.Repr()))
    ensures after.Memory() == AccessStep(Interpreter, old(memory.Memory()), a).0
    ensures SameAnswer(a, reply, AccessStep(Interpreter, old(memory.Memory()), a).1)
  {
    hide Apply, Fresh;
    if a.Reset? {
      var size := memory.MemorySize();
      after := NewMemory(size / PAGE, memory.inner.Sparse?);
      reply := Done;
    } else {
      after := memory;
      reply := memory.Perform(OpOf(a));
    }
  }

  method RunPlain(memory: WXorXMemory, accesses: seq<Access>) returns (after: WXorXMemory, replies: seq<Reply>, faulted: bool)
    requires memory.Valid() && forall a :: a in accesses ==> Possible(a)
    modifies memory.inner.Repr()
    ensures after.Valid()
    ensures var r := RunFrom(Interpreter, old(memory.Memory()), accesses, 0);
            after.Memory() == r.0 && faulted == r.2 && SameAnswers(accesses, replies, r.1)
  {
    hide AccessStep, SameAnswer, memory.Memory, memory.Valid;
    after, replies, faulted := memory, [], false;
    ghost var m0 := memory.Memory();
    ghost var plain: seq<Reply> := [];
    assert [] + RunFrom(Interpreter, m0, accesses, 0).1 == RunFrom(Interpreter, m0, accesses, 0).1;
    for i := 0 to |accesses|
      invariant after.Valid() && (after == memory || fresh(after.inner.Repr()))
      invariant |replies| == i && SameAnswers(accesses, replies, plain) && !faulted
      invariant var rest := RunFrom(Interpreter, after.Memory(), accesses, i);
                RunFrom(Interpreter, m0, accesses, 0) == (rest.0, plain + rest.1, rest.2)
    {
      ghost var step := AccessStep(Interpreter, after.Memory(), accesses[i]);
      var reply;
      after, reply := PerformPlain(after, accesses[i]);
      SameFaults(accesses[i], reply, step.1);
      ghost var rest := RunFrom(Interpreter, after.Memory(), accesses, i + 1);
      assert (plain + [step.1]) + rest.1 == plain + ([step.1] + rest.1);
      replies, plain := replies + [reply], plain + [step.1];
      if Faults(accesses[i], reply) {
        faulted := true;
        return;
      }
    }
    assert plain + [] == plain;
  }

  lemma {:induction false} SameFaults(a: Access, r: Reply, s: Reply)
    requires SameAnswer(a, r, s)
    ensures Faults(a, r) <==> Faults(a, s)
  {
  }

  lemma {:induction false} AlikeThenSame(accesses: seq<Access>, asm: seq<Reply>, plain: seq<Reply>, replies: seq<Reply>)
    requires AlikeAnswers(accesses, 0, asm, plain) && SameAnswers(accesses, replies, plain)
    ensures AlikeAnswers(accesses, 0, asm, replies)
  {
    forall k | 0 <= k < |asm| ensures AlikeAnswer(accesses[0 + k], asm[k], replies[k]) {
      assert AlikeAnswer(accesses[0 + k], asm[k], plain[k]) && SameAnswer(accesses[k], replies[k], plain[k]);
    }
  }

  /**
   A new assembly core and a new interpreter memory under the same accesses, compiled ones and resets included:
   unless they part at one of them, they fault at the same access, reply alike and end alike.
   */
  method CompareCores(frameCount: nat, sparse: bool, accesses: seq<Access>)
    returns (core: AsmMemory, memory: WXorXMemory, asm: seq<Reply>, plain: seq<Reply>, asmFaulted: bool, plainFaulted: bool)
    requires 0 < frameCount * LazyFrames.FRAME < TWO63 && (sparse ==> frameCount * LazyFrames.FRAME_PAGES <= INVALID_PAGE_INDEX)
    requires forall a :: a in accesses ==> Possible(a)
    ensures core.Valid() && memory.Valid()
    ensures var m := Fresh(frameCount * LazyFrames.FRAME_PAGES);
            && (core.Memory(), asm, asmFaulted) == RunFrom(Assembly, m, accesses, 0)
            && (memory.Memory() == RunFrom(Interpreter, m, accesses, 0).0)
            && (AlikeThroughout(m, m, accesses, 0) <==> NeverPart(m, m, accesses, 0))
            && (NeverPart(m, m, accesses, 0) ==>
                  Alike(core.Memory(), memory.Memory()) && asmFaulted == plainFaulted && AlikeAnswers(accesses, 0, asm, plain))
  {
    hide RunFrom, AlikeThroughout, NeverPart, AlikeAnswers, SameAnswers, Alike, Fresh;
    ghost var m := Fresh(frameCount * LazyFrames.FRAME_PAGES);
    core := new AsmMemory(frameCount);
    asm, asmFaulted := PerformAll(core, accesses);
    memory := NewMemory(frameCount * LazyFrames.FRAME_PAGES, sparse);
    memory, plain, plainFaulted := RunPlain(memory, accesses);
    SelfAlike(m);
    CoresAgree(m, m, accesses, 0);
    if NeverPart(m, m, accesses, 0) { AlikeThenSame(accesses, asm, RunFrom(Interpreter, m, accesses, 0).1, plain); }
  }
}
