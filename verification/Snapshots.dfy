/**
 What a snapshot means (src/snapshot2.rs): when the record of source-backed pages is sound,
 how pages are gathered into runs, and that no page is lost by it.
 */
module Snapshots {
  import opened Words
  import opened PagedMemory

  type Id = nat

  /** Where a page came from, and its flags when it was recorded. */
  datatype Origin = Origin(id: Id, offset: nat, flag: Flags)

  datatype SourceRun = SourceRun(address: nat, flag: Flags, id: Id, offset: nat, length: nat)

  datatype DirtyRun = DirtyRun(address: nat, flag: Flags, content: seq<Byte>)

  datatype Snapshot = Snapshot(
    pagesFromSource: seq<SourceRun>,
    dirtyPages: seq<DirtyRun>,
    version: nat,
    registers: seq<U64>,
    pc: U64,
    cycles: U64,
    maxCycles: U64,
    lr: U64)

  // ---------------------------------------------------------------- the data source

  /** Data of an id from an offset on, cut to a length, with the full length that remains. */
  type Loader = (Id, nat, nat) -> Option<(seq<Byte>, U64)>

  /** The source stands for fixed contents: it never fails for a known id and never makes anything up. */
  ghost predicate Stable(load: Loader, contents: Id -> Option<seq<Byte>>) {
    forall id, offset, length :: StableAt(load(id, offset, length), contents(id), offset, length)
  }

  ghost predicate StableAt(loaded: Option<(seq<Byte>, U64)>, content: Option<seq<Byte>>, offset: nat, length: nat) {
    && (loaded.Some? <==> content.Some?)
    && (loaded.Some? ==>
          && |loaded.value.0| < TWO63
          && (loaded.value.0 != [] ==> Cut(content.value, offset, loaded.value.0))
          && (0 < length && offset + length <= |content.value| ==> |loaded.value.0| == length))
  }

  predicate Cut(content: seq<Byte>, offset: nat, data: seq<Byte>) {
    offset + |data| <= |content| && data == Slice(content, offset, |data|)
  }

  // ---------------------------------------------------------------- soundness of the record

  ghost predicate FromSource(contents: Id -> Option<seq<Byte>>, origin: Origin, bytes: seq<Byte>) {
    contents(origin.id).Some? && Cut(contents(origin.id).value, origin.offset, bytes)
  }

  /** A page is dirty, or equal to its recorded source slice and flags, or untouched. */
  ghost predicate PageSound(contents: Id -> Option<seq<Byte>>, pages: map<nat, Origin>, m: Memory, page: nat)
    requires page < |m.flags|
  {
    if m.flags[page].dirty then true
    else if page in pages then pages[page].flag == m.flags[page] && FromSource(contents, pages[page], PageBytes(m, page))
    else m.flags[page] == NO_FLAGS && PageBytes(m, page) == Zeros(PAGE)
  }

  ghost predicate Sound(contents: Id -> Option<seq<Byte>>, pages: map<nat, Origin>, m: Memory) {
    && (forall page :: page in pages ==> page < |m.flags|)
    && forall page :: 0 <= page < |m.flags| ==> PageSound(contents, pages, m, page)
  }

  lemma {:induction false} FreshIsSound(contents: Id -> Option<seq<Byte>>, pageCount: nat)
    requires pageCount * PAGE < TWO63
    ensures Sound(contents, map[], Fresh(pageCount))
  {
  }

  lemma {:induction false} InitKeepsSound(
      contents: Id -> Option<seq<Byte>>, pages: map<nat, Origin>, m: Memory, addr: U64, size: U64, f: Flags,
      source: seq<Byte>, offset: U64)
    requires Sound(contents, pages, m) && |source| < TWO63 && !StopsHalfway(m, OpInit(addr, size, f, source, offset))
    ensures Sound(contents, pages, InitPages(m, addr, size, f, source, offset).mem)
  {
    hide Put, PageBytes, Image;
    if InitError(m, addr, size, offset).None? {
      var first, last := PageOf(addr), PageOf(addr + size) - 1;
      var marked: Memory := m.(flags := Mark(m.flags, first, last, f));
      if size == 0 {
        MarkNone(m.flags, first, last, f);
      } else {
        var image := Image(size, source, offset);
        assert last == LastPage(addr, size);
        forall page | 0 <= page < |m.flags| ensures PageSound(contents, pages, Put(marked, addr, image), page) {
          PutPage(marked, addr, image, page);
          SamePageBytes(m, marked, page);
          assert PageSound(contents, pages, m, page);
        }
      }
    }
  }

  /** The dirty bits tell what was changed: every page that is not dirty is as it was. */
  ghost predicate MarksChanges(m: Memory, m': Memory) {
    |m'.flags| == |m.flags| && forall p :: 0 <= p < |m.flags| ==> PageKept(m, m', p)
  }

  ghost predicate PageKept(m: Memory, m': Memory, p: nat)
    requires p < |m.flags| == |m'.flags|
  {
    m'.flags[p].dirty || (m'.flags[p] == m.flags[p] && PageBytes(m', p) == PageBytes(m, p))
  }

  lemma {:induction false} SelfMarks(m: Memory)
    ensures MarksChanges(m, m)
  {
  }

  lemma {:induction false} MarksTwice(m: Memory, m': Memory, m'': Memory)
    requires MarksChanges(m, m') && MarksChanges(m', m'')
    ensures MarksChanges(m, m'')
  {
    hide PageBytes;
    forall p | 0 <= p < |m.flags| ensures PageKept(m, m'', p) {
      assert PageKept(m, m', p) && PageKept(m', m'', p);
    }
  }

  lemma {:induction false} LrMarks(m: Memory, lr: U64)
    ensures MarksChanges(m, m.(lr := lr))
  {
    hide PageBytes;
    forall p | 0 <= p < |m.flags| ensures PageKept(m, m.(lr := lr), p) { SamePageBytes(m, m.(lr := lr), p); }
  }

  lemma {:induction false} PutMarks(m: Memory, addr: nat, data: seq<Byte>)
    requires data != [] && InRange(m, addr, |data|)
    ensures MarksChanges(m, Put(m, addr, data))
  {
    hide Put, PageBytes, LastPage;
    forall p | 0 <= p < |m.flags| ensures PageKept(m, Put(m, addr, data), p) { PutPage(m, addr, data, p); }
  }

  lemma {:induction false} StoreMarks(m: Memory, addr: U64, data: seq<Byte>)
    requires |data| < TWO64
    ensures MarksChanges(m, StoreBytes(m, addr, data).mem)
  {
    hide Put, MarksChanges;
    SelfMarks(m);
    if StoreBytes(m, addr, data).error.None? && data != [] { PutMarks(m, addr, data); }
  }

  /** The operations of loads and stores; only the context itself and `init_pages` deal in flags. */
  predicate Ordinary(op: Op) { Feasible(op) && !op.OpInit? && !op.OpSetFlag? && !op.OpClearFlag? }

  lemma {:induction false} OrdinaryMarks(m: Memory, op: Op)
    requires Ordinary(op)
    ensures MarksChanges(m, Apply(m, op).0)
  {
    hide MarksChanges, Put, StoreError;
    SelfMarks(m);
    match op {
      case OpStoreBytes(a, d) => StoreMarks(m, a, d);
      case OpStoreByte(a, s, v) =>
        StoreMarks(m, a, Repeat(s, v));
        assert StoreByte(m, a, s, v) == StoreBytes(m, a, Repeat(s, v));
      case OpStore(a, w, v) => StoreMarks(m, a, ToLittleEndian(v, w.Bytes()));
      case OpSetLr(v) => LrMarks(m, v);
      case _ =>
    }
  }

  /** Code that marks what it changes keeps the record sound. */
  lemma {:induction false} MarkingKeepsSound(contents: Id -> Option<seq<Byte>>, pages: map<nat, Origin>, m: Memory, m': Memory)
    requires Sound(contents, pages, m) && MarksChanges(m, m')
    ensures Sound(contents, pages, m')
  {
    hide PageBytes, FromSource;
    forall p | 0 <= p < |m'.flags| ensures PageSound(contents, pages, m', p) {
      assert PageSound(contents, pages, m, p) && PageKept(m, m', p);
    }
  }

  /** A memory of the same size that nothing has been done to. */
  function BlankLike(m: Memory): Memory {
    Fresh(|m.flags|)
  }

  /** Every recorded page is dirty, or recorded without flags as a slice of zeros. */
  ghost predicate RecordsBlank(contents: Id -> Option<seq<Byte>>, pages: map<nat, Origin>, m: Memory) {
    forall p :: p in pages ==> p < |m.flags| && (m.flags[p].dirty || RecordedBlank(contents, pages[p]))
  }

  ghost predicate RecordedBlank(contents: Id -> Option<seq<Byte>>, origin: Origin) {
    origin.flag == NO_FLAGS && FromSource(contents, origin, Zeros(PAGE))
  }

  /** A memory that was reset, and in which what was done since is dirty, suits a record exactly then. */
  lemma {:induction false} ResetExact(contents: Id -> Option<seq<Byte>>, pages: map<nat, Origin>, m: Memory, m': Memory)
    requires |m'.flags| == |m.flags| && MarksChanges(BlankLike(m), m')
    ensures Sound(contents, pages, m') <==> RecordsBlank(contents, pages, m')
  {
    hide FromSource, PageBytes;
    forall p | 0 <= p < |m'.flags|
      ensures PageSound(contents, pages, m', p) <==> (p in pages ==> m'.flags[p].dirty || RecordedBlank(contents, pages[p]))
    {
      assert PageKept(BlankLike(m), m', p);
      BlankPage(m, p);
    }
  }

  lemma {:induction false} BlankPage(m: Memory, p: nat)
    requires p < |m.flags|
    ensures BlankLike(m).flags[p] == NO_FLAGS && PageBytes(BlankLike(m), p) == Zeros(PAGE)
  {
  }

  lemma {:induction false} StoreKeepsSound(contents: Id -> Option<seq<Byte>>, pages: map<nat, Origin>, m: Memory, addr: U64, data: seq<Byte>)
    requires Sound(contents, pages, m) && |data| < TWO64
    ensures Sound(contents, pages, StoreBytes(m, addr, data).mem)
  {
    hide Sound, MarksChanges, StoreBytes;
    StoreMarks(m, addr, data);
    MarkingKeepsSound(contents, pages, m, StoreBytes(m, addr, data).mem);
  }

  /** Whatever a program does to memory keeps the record sound; it cannot set or clear flags. */
  lemma {:induction false} ProgramKeepsSound(contents: Id -> Option<seq<Byte>>, pages: map<nat, Origin>, m: Memory, op: Op)
    requires Sound(contents, pages, m) && Feasible(op)
    requires !op.OpSetFlag? && !op.OpClearFlag? && !StopsHalfway(m, op)
    ensures Sound(contents, pages, Apply(m, op).0)
  {
    hide Sound, InitPages, MarksChanges, StopsHalfway;
    if op.OpInit? {
      InitKeepsSound(contents, pages, m, op.addr, op.size, op.f, op.source, op.offset);
    } else {
      hide Apply;
      OrdinaryMarks(m, op);
      MarkingKeepsSound(contents, pages, m, Apply(m, op).0);
    }
  }

  /** A failed `init_pages` of the interpreter can leave flags no record and no dirty bit tells of. */
  lemma {:induction false} HalfwayIsUnsound(contents: Id -> Option<seq<Byte>>) returns (m: Memory, op: Op)
    ensures Feasible(op) && StopsHalfway(m, op) && Sound(contents, map[], m)
    ensures !Sound(contents, map[], Apply(m, op).0)
  {
    m := Mem(Zeros(2 * PAGE), [NO_FLAGS, Flags(true, false, true)], U64_MAX);
    op := OpInit(0, 2 * PAGE, EXECUTABLE, [], 0);
    assert PageOf(0) == 0 && PageOf(2 * PAGE) == 2;
    assert PageBytes(m, 0) == Zeros(PAGE);
    var marked := Mark(m.flags, 0, 0, EXECUTABLE);
    assert FirstFreezed(m.flags, 0, 1) == Some(1);
    assert marked[0].executable;
    assert !PageSound(contents, map[], Apply(m, op).0, 0);
  }

  /** All a failed `init_pages` does: flags on the pages before the frozen one. */
  lemma {:induction false} HalfwayFlags(m: Memory, op: Op)
    requires Feasible(op) && StopsHalfway(m, op)
    ensures var first, last := PageOf(op.addr), PageOf(op.addr + op.size) - 1;
            Apply(m, op).0 == m.(flags := Mark(m.flags, first, FirstFreezed(m.flags, first, last).value - 1, op.f))
  {
  }

  /** No clean page before the frozen one gains a flag. */
  predicate GainsNothing(m: Memory, op: Op)
    requires StopsHalfway(m, op)
  {
    var first, last := PageOf(op.addr), PageOf(op.addr + op.size) - 1;
    forall p :: first <= p < FirstFreezed(m.flags, first, last).value && p < |m.flags| ==>
      m.flags[p].dirty || op.f.dirty || m.flags[p].Or(op.f) == m.flags[p]
  }

  /** Exactly when it does: a clean page before the frozen one gains a flag. */
  lemma {:induction false} HalfwayExact(contents: Id -> Option<seq<Byte>>, pages: map<nat, Origin>, m: Memory, op: Op)
    requires Sound(contents, pages, m) && Feasible(op) && StopsHalfway(m, op)
    ensures Sound(contents, pages, Apply(m, op).0) <==> GainsNothing(m, op)
  {
    hide PageBytes, FromSource, PageSound, Apply;
    HalfwayFlags(m, op);
    var first: nat, last: int := PageOf(op.addr), PageOf(op.addr + op.size) - 1;
    var frozen: int := FirstFreezed(m.flags, first, last).value;
    FlaggedPages(contents, pages, m, first, frozen, op.f);
  }

  lemma {:induction false} FlaggedPages(contents: Id -> Option<seq<Byte>>, pages: map<nat, Origin>, m: Memory, first: nat, until: int, f: Flags)
    requires Sound(contents, pages, m) && until <= |m.flags|
    ensures Sound(contents, pages, m.(flags := Mark(m.flags, first, until - 1, f))) <==>
            forall p :: first <= p < until ==> m.flags[p].dirty || f.dirty || m.flags[p].Or(f) == m.flags[p]
  {
    hide PageBytes, FromSource, PageSound;
    var flags := Mark(m.flags, first, until - 1, f);
    forall p | 0 <= p < |m.flags|
      ensures PageSound(contents, pages, m.(flags := flags), p) <==>
              (first <= p < until ==> m.flags[p].dirty || f.dirty || m.flags[p].Or(f) == m.flags[p])
    {
      FlaggedPage(contents, pages, m, flags, p);
    }
  }

  /** New flags on a sound page leave it sound when they make it dirty or are the old ones, not otherwise. */
  lemma {:induction false} FlaggedPage(contents: Id -> Option<seq<Byte>>, pages: map<nat, Origin>, m: Memory, flags: seq<Flags>, p: nat)
    requires p < |m.flags| == |flags| && PageSound(contents, pages, m, p) && (m.flags[p].dirty ==> flags[p].dirty)
    ensures PageSound(contents, pages, m.(flags := flags), p) <==> flags[p].dirty || flags[p] == m.flags[p]
  {
  }

  // ---------------------------------------------------------------- gathering pages into runs

  /** The dirty pages below `n`, neighbours with equal flags in one run. */
  function DirtyRuns(m: Memory, n: nat): seq<DirtyRun>
    requires n <= |m.flags|
  {
    if n == 0 then []
    else
      var runs, page := DirtyRuns(m, n - 1), n - 1;
      if m.flags[page].dirty then AddDirty(runs, page, m.flags[page], PageBytes(m, page)) else runs
  }

  function AddDirty(runs: seq<DirtyRun>, page: nat, flag: Flags, data: seq<Byte>): seq<DirtyRun>
  {
    if runs != [] && JoinsDirty(runs[|runs| - 1], page, flag) then
      runs[|runs| - 1 := runs[|runs| - 1].(content := runs[|runs| - 1].content + data)]
    else runs + [DirtyRun(page * PAGE, flag, data)]
  }

  predicate JoinsDirty(last: DirtyRun, page: nat, flag: Flags) {
    last.address + |last.content| == page * PAGE && last.flag == flag
  }

  /** The clean recorded pages below `n`, neighbours that are contiguous in their source in one run. */
  function SourceRuns(pages: map<nat, Origin>, flags: seq<Flags>, n: nat): seq<SourceRun>
    requires n <= |flags|
  {
    if n == 0 then []
    else
      var runs, page := SourceRuns(pages, flags, n - 1), n - 1;
      if page in pages && !flags[page].dirty then AddSource(runs, page, pages[page]) else runs
  }

  function AddSource(runs: seq<SourceRun>, page: nat, origin: Origin): seq<SourceRun>
  {
    if runs != [] && JoinsSource(runs[|runs| - 1], page, origin) then
      runs[|runs| - 1 := runs[|runs| - 1].(length := runs[|runs| - 1].length + PAGE)]
    else runs + [SourceRun(page * PAGE, origin.flag, origin.id, origin.offset, PAGE)]
  }

  predicate JoinsSource(last: SourceRun, page: nat, origin: Origin) {
    last.address + last.length == page * PAGE && last.flag == origin.flag && last.id == origin.id
    && last.offset + last.length == origin.offset
  }

  /** Only clean recorded pages matter to the runs. */
  lemma {:induction false} SourceRunsAgree(pages: map<nat, Origin>, pages': map<nat, Origin>, flags: seq<Flags>, n: nat)
    requires n <= |flags|
    requires forall p :: 0 <= p < |flags| && !flags[p].dirty ==> (p in pages <==> p in pages')
    requires forall p :: 0 <= p < |flags| && !flags[p].dirty && p in pages && p in pages' ==> pages'[p] == pages[p]
    ensures SourceRuns(pages', flags, n) == SourceRuns(pages, flags, n)
  {
    hide AddSource;
    if n > 0 { SourceRunsAgree(pages, pages', flags, n - 1); }
  }

  // ---------------------------------------------------------------- what the runs cover

  /** The run holds whole pages, all recorded and clean, each at its own place in the source. */
  ghost predicate SourceRunHolds(pages: map<nat, Origin>, flags: seq<Flags>, run: SourceRun, start: nat, count: nat) {
    && run.address == start * PAGE && run.length == count * PAGE && 0 < count && start + count <= |flags|
    && forall p :: start <= p < start + count ==>
         p in pages && !flags[p].dirty && pages[p] == Origin(run.id, run.offset + (p - start) * PAGE, run.flag)
  }

  /** No clean recorded page between two runs. */
  predicate NoSource(pages: map<nat, Origin>, flags: seq<Flags>, lo: nat, hi: nat) {
    lo <= hi <= |flags| && forall p :: lo <= p < hi && p in pages ==> flags[p].dirty
  }

  function SourceStart(run: SourceRun): nat { run.address / PAGE }

  function SourceCount(run: SourceRun): nat { run.length / PAGE }

  function SourceEnd(runs: seq<SourceRun>, i: nat): nat
    requires i <= |runs|
  {
    if i == 0 then 0 else SourceStart(runs[i - 1]) + SourceCount(runs[i - 1])
  }

  /** In order, without gaps: the runs cover exactly the clean recorded pages below `n`. */
  ghost predicate SourceCover(pages: map<nat, Origin>, flags: seq<Flags>, runs: seq<SourceRun>, n: nat) {
    && (forall i :: 0 <= i < |runs| ==>
          && SourceRunHolds(pages, flags, runs[i], SourceStart(runs[i]), SourceCount(runs[i]))
          && NoSource(pages, flags, SourceEnd(runs, i), SourceStart(runs[i])))
    && NoSource(pages, flags, SourceEnd(runs, |runs|), n)
  }

  lemma {:induction false} SourceRunsCover(pages: map<nat, Origin>, flags: seq<Flags>, n: nat)
    requires n <= |flags|
    ensures SourceCover(pages, flags, SourceRuns(pages, flags, n), n)
  {
    hide SourceCover, AddSource;
    if n == 0 {
      NothingCovered(pages, flags);
    } else {
      var page := n - 1;
      SourceRunsCover(pages, flags, page);
      var runs := SourceRuns(pages, flags, page);
      if page in pages && !flags[page].dirty {
        CoverAdds(pages, flags, runs, page);
      } else {
        CoverSkips(pages, flags, runs, page);
      }
    }
  }

  lemma {:induction false} NothingCovered(pages: map<nat, Origin>, flags: seq<Flags>)
    ensures SourceCover(pages, flags, [], 0)
  {
  }

  lemma {:induction false} CoverSkips(pages: map<nat, Origin>, flags: seq<Flags>, runs: seq<SourceRun>, page: nat)
    requires page < |flags| && SourceCover(pages, flags, runs, page) && (page in pages ==> flags[page].dirty)
    ensures SourceCover(pages, flags, runs, page + 1)
  {
  }

  lemma {:induction false} CoverAdds(pages: map<nat, Origin>, flags: seq<Flags>, runs: seq<SourceRun>, page: nat)
    requires page < |flags| && SourceCover(pages, flags, runs, page) && page in pages && !flags[page].dirty
    ensures SourceCover(pages, flags, AddSource(runs, page, pages[page]), page + 1)
  {
    hide SourceCover, SourceRunHolds, SourceStart, SourceCount;
    var origin, k := pages[page], |runs|;
    if k > 0 && JoinsSource(runs[k - 1], page, origin) {
      LastRunHolds(pages, flags, runs, page);
      RunGrows(pages, flags, runs[k - 1], page);
      CoverReplaces(pages, flags, runs, runs[k - 1].(length := runs[k - 1].length + PAGE), page);
    } else {
      var run := SourceRun(page * PAGE, origin.flag, origin.id, origin.offset, PAGE);
      OnePageRun(pages, flags, run, page);
      CoverAppends(pages, flags, runs, run, page);
    }
  }

  lemma {:induction false} LastRunHolds(pages: map<nat, Origin>, flags: seq<Flags>, runs: seq<SourceRun>, n: nat)
    requires runs != [] && SourceCover(pages, flags, runs, n)
    ensures var last := runs[|runs| - 1]; SourceRunHolds(pages, flags, last, SourceStart(last), SourceCount(last))
  {
  }

  lemma {:induction false} OnePageRun(pages: map<nat, Origin>, flags: seq<Flags>, run: SourceRun, page: nat)
    requires page < |flags| && page in pages && !flags[page].dirty
    requires run == SourceRun(page * PAGE, pages[page].flag, pages[page].id, pages[page].offset, PAGE)
    ensures SourceStart(run) == page && SourceCount(run) == 1 && SourceRunHolds(pages, flags, run, page, 1)
  {
  }

  lemma {:induction false} RunGrows(pages: map<nat, Origin>, flags: seq<Flags>, run: SourceRun, page: nat)
    requires SourceRunHolds(pages, flags, run, SourceStart(run), SourceCount(run))
    requires page < |flags| && page in pages && !flags[page].dirty && JoinsSource(run, page, pages[page])
    ensures var longer := run.(length := run.length + PAGE);
            && SourceStart(longer) == SourceStart(run) && SourceCount(longer) == SourceCount(run) + 1
            && SourceStart(run) + SourceCount(run) == page
            && SourceRunHolds(pages, flags, longer, SourceStart(longer), SourceCount(longer))
  {
  }

  lemma {:induction false} CoverReplaces(pages: map<nat, Origin>, flags: seq<Flags>, runs: seq<SourceRun>, longer: SourceRun, page: nat)
    requires runs != [] && page < |flags| && SourceCover(pages, flags, runs, page)
    requires SourceStart(longer) == SourceStart(runs[|runs| - 1]) && SourceStart(longer) + SourceCount(longer) == page + 1
    requires SourceRunHolds(pages, flags, longer, SourceStart(longer), SourceCount(longer))
    ensures SourceCover(pages, flags, runs[|runs| - 1 := longer], page + 1)
  {
    hide SourceRunHolds, SourceStart, SourceCount, NoSource;
    var runs' := runs[|runs| - 1 := longer];
    assert NoSource(pages, flags, page + 1, page + 1) by { EmptyGap(pages, flags, page + 1); }
    forall i | 0 <= i < |runs'|
      ensures SourceRunHolds(pages, flags, runs'[i], SourceStart(runs'[i]), SourceCount(runs'[i]))
              && NoSource(pages, flags, SourceEnd(runs', i), SourceStart(runs'[i]))
    {
      assert SourceEnd(runs', i) == SourceEnd(runs, i);
      assert SourceStart(runs'[i]) == SourceStart(runs[i]);
    }
  }

  lemma {:induction false} CoverAppends(pages: map<nat, Origin>, flags: seq<Flags>, runs: seq<SourceRun>, run: SourceRun, page: nat)
    requires page < |flags| && SourceCover(pages, flags, runs, page)
    requires SourceStart(run) == page && SourceStart(run) + SourceCount(run) == page + 1
    requires SourceRunHolds(pages, flags, run, SourceStart(run), SourceCount(run))
    ensures SourceCover(pages, flags, runs + [run], page + 1)
  {
    hide SourceRunHolds, SourceStart, SourceCount, NoSource;
    var runs' := runs + [run];
    assert NoSource(pages, flags, page + 1, page + 1) by { EmptyGap(pages, flags, page + 1); }
    forall i | 0 <= i < |runs'|
      ensures SourceRunHolds(pages, flags, runs'[i], SourceStart(runs'[i]), SourceCount(runs'[i]))
              && NoSource(pages, flags, SourceEnd(runs', i), SourceStart(runs'[i]))
    {
      assert SourceEnd(runs', i) == SourceEnd(runs, i);
      if i < |runs| { assert runs'[i] == runs[i]; }
    }
  }

  lemma {:induction false} EmptyGap(pages: map<nat, Origin>, flags: seq<Flags>, n: nat)
    requires n <= |flags|
    ensures NoSource(pages, flags, n, n)
  {
  }

  // ---------------------------------------------------------------- the same for dirty pages

  ghost predicate DirtyRunHolds(m: Memory, run: DirtyRun, start: nat, count: nat) {
    && run.address == start * PAGE && |run.content| == count * PAGE && 0 < count && start + count <= |m.flags|
    && run.flag.dirty
    && forall p :: start <= p < start + count ==>
         m.flags[p] == run.flag && Slice(run.content, (p - start) * PAGE, PAGE) == PageBytes(m, p)
  }

  predicate NoDirty(flags: seq<Flags>, lo: nat, hi: nat) {
    lo <= hi <= |flags| && forall p :: lo <= p < hi ==> !flags[p].dirty
  }

  function DirtyStart(run: DirtyRun): nat { run.address / PAGE }

  function DirtyCount(run: DirtyRun): nat { |run.content| / PAGE }

  function DirtyEnd(runs: seq<DirtyRun>, i: nat): nat
    requires i <= |runs|
  {
    if i == 0 then 0 else DirtyStart(runs[i - 1]) + DirtyCount(runs[i - 1])
  }

  /** In order, without gaps: the runs cover exactly the dirty pages below `n`. */
  ghost predicate DirtyCover(m: Memory, runs: seq<DirtyRun>, n: nat) {
    && (forall i :: 0 <= i < |runs| ==>
          DirtyRunHolds(m, runs[i], DirtyStart(runs[i]), DirtyCount(runs[i]))
          && NoDirty(m.flags, DirtyEnd(runs, i), DirtyStart(runs[i])))
    && NoDirty(m.flags, DirtyEnd(runs, |runs|), n)
  }

  lemma {:induction false} DirtyRunsCover(m: Memory, n: nat)
    requires n <= |m.flags|
    ensures DirtyCover(m, DirtyRuns(m, n), n)
  {
    hide DirtyCover, AddDirty, PageBytes;
    if n == 0 {
      NothingDirty(m);
    } else {
      DirtyRunsCover(m, n - 1);
      if m.flags[n - 1].dirty {
        DirtyAdds(m, DirtyRuns(m, n - 1), n - 1);
      } else {
        DirtySkips(m, DirtyRuns(m, n - 1), n - 1);
      }
    }
  }

  lemma {:induction false} NothingDirty(m: Memory)
    ensures DirtyCover(m, [], 0)
  {
  }

  lemma {:induction false} DirtySkips(m: Memory, runs: seq<DirtyRun>, page: nat)
    requires page < |m.flags| && DirtyCover(m, runs, page) && !m.flags[page].dirty
    ensures DirtyCover(m, runs, page + 1)
  {
  }

  lemma {:induction false} DirtyAdds(m: Memory, runs: seq<DirtyRun>, page: nat)
    requires page < |m.flags| && DirtyCover(m, runs, page) && m.flags[page].dirty
    ensures DirtyCover(m, AddDirty(runs, page, m.flags[page], PageBytes(m, page)), page + 1)
  {
    hide DirtyCover, DirtyRunHolds, DirtyStart, DirtyCount, PageBytes;
    var k, flag, data := |runs|, m.flags[page], PageBytes(m, page);
    if k > 0 && JoinsDirty(runs[k - 1], page, flag) {
      LastDirtyHolds(m, runs, page);
      DirtyGrows(m, runs[k - 1], page);
      DirtyReplaces(m, runs, runs[k - 1].(content := runs[k - 1].content + data), page);
    } else {
      OneDirtyPage(m, DirtyRun(page * PAGE, flag, data), page);
      DirtyAppends(m, runs, DirtyRun(page * PAGE, flag, data), page);
    }
  }

  lemma {:induction false} LastDirtyHolds(m: Memory, runs: seq<DirtyRun>, n: nat)
    requires runs != [] && DirtyCover(m, runs, n)
    ensures var last := runs[|runs| - 1]; DirtyRunHolds(m, last, DirtyStart(last), DirtyCount(last))
  {
  }

  lemma {:induction false} OneDirtyPage(m: Memory, run: DirtyRun, page: nat)
    requires page < |m.flags| && m.flags[page].dirty && run == DirtyRun(page * PAGE, m.flags[page], PageBytes(m, page))
    ensures DirtyStart(run) == page && DirtyCount(run) == 1 && DirtyRunHolds(m, run, page, 1)
  {
  }

  lemma {:induction false} DirtyGrows(m: Memory, run: DirtyRun, page: nat)
    requires DirtyRunHolds(m, run, DirtyStart(run), DirtyCount(run))
    requires page < |m.flags| && JoinsDirty(run, page, m.flags[page])
    ensures var longer := run.(content := run.content + PageBytes(m, page));
            && DirtyStart(longer) == DirtyStart(run) && DirtyCount(longer) == DirtyCount(run) + 1
            && DirtyStart(run) + DirtyCount(run) == page
            && DirtyRunHolds(m, longer, DirtyStart(longer), DirtyCount(longer))
  {
  }

  lemma {:induction false} DirtyReplaces(m: Memory, runs: seq<DirtyRun>, longer: DirtyRun, page: nat)
    requires runs != [] && page < |m.flags| && DirtyCover(m, runs, page)
    requires DirtyStart(longer) == DirtyStart(runs[|runs| - 1]) && DirtyStart(longer) + DirtyCount(longer) == page + 1
    requires DirtyRunHolds(m, longer, DirtyStart(longer), DirtyCount(longer))
    ensures DirtyCover(m, runs[|runs| - 1 := longer], page + 1)
  {
    hide DirtyRunHolds, DirtyStart, DirtyCount, NoDirty;
    var runs' := runs[|runs| - 1 := longer];
    assert NoDirty(m.flags, page + 1, page + 1) by { EmptyDirtyGap(m.flags, page + 1); }
    forall i | 0 <= i < |runs'|
      ensures DirtyRunHolds(m, runs'[i], DirtyStart(runs'[i]), DirtyCount(runs'[i]))
              && NoDirty(m.flags, DirtyEnd(runs', i), DirtyStart(runs'[i]))
    {
      assert DirtyEnd(runs', i) == DirtyEnd(runs, i);
      assert DirtyStart(runs'[i]) == DirtyStart(runs[i]);
    }
  }

  lemma {:induction false} DirtyAppends(m: Memory, runs: seq<DirtyRun>, run: DirtyRun, page: nat)
    requires page < |m.flags| && DirtyCover(m, runs, page)
    requires DirtyStart(run) == page && DirtyStart(run) + DirtyCount(run) == page + 1
    requires DirtyRunHolds(m, run, DirtyStart(run), DirtyCount(run))
    ensures DirtyCover(m, runs + [run], page + 1)
  {
    hide DirtyRunHolds, DirtyStart, DirtyCount, NoDirty;
    var runs' := runs + [run];
    assert NoDirty(m.flags, page + 1, page + 1) by { EmptyDirtyGap(m.flags, page + 1); }
    forall i | 0 <= i < |runs'|
      ensures DirtyRunHolds(m, runs'[i], DirtyStart(runs'[i]), DirtyCount(runs'[i]))
              && NoDirty(m.flags, DirtyEnd(runs', i), DirtyStart(runs'[i]))
    {
      assert DirtyEnd(runs', i) == DirtyEnd(runs, i);
      if i < |runs| { assert runs'[i] == runs[i]; }
    }
  }

  lemma {:induction false} EmptyDirtyGap(flags: seq<Flags>, n: nat)
    requires n <= |flags|
    ensures NoDirty(flags, n, n)
  {
  }
}
