/** Putting pages back from the runs of a snapshot (src/snapshot2.rs), one run at a time. */
module Restoring {
  import opened Words
  import opened PagedMemory
  import opened Snapshots
  import opened Tracking

  ghost predicate Back(was: Memory, m: Memory, p: nat)
    requires p < |was.flags| == |m.flags|
  {
    m.flags[p] == was.flags[p] && PageBytes(m, p) == PageBytes(was, p)
  }

  ghost predicate Blank(m: Memory, p: nat)
    requires p < |m.flags|
  {
    m.flags[p] == NO_FLAGS && PageBytes(m, p) == Zeros(PAGE)
  }

  /** Clean recorded pages come back with the source runs, dirty ones with the dirty runs. */
  predicate Due(was: Memory, recorded: map<nat, Origin>, p: nat, sources: nat, dirty: nat)
    requires p < |was.flags|
  {
    if was.flags[p].dirty then p < dirty else p in recorded && p < sources
  }

  /** The pages below the two bounds are back, all others are still blank. */
  ghost predicate PagesBack(was: Memory, recorded: map<nat, Origin>, m: Memory, sources: nat, dirty: nat) {
    |m.flags| == |was.flags|
    && forall p :: 0 <= p < |was.flags| ==> if Due(was, recorded, p, sources, dirty) then Back(was, m, p) else Blank(m, p)
  }

  /** So is the record of the clean ones. */
  ghost predicate RecordBack(was: Memory, recorded: map<nat, Origin>, pages: map<nat, Origin>, sources: nat) {
    forall p ::
      && (p in pages <==> p in recorded && p < |was.flags| && !was.flags[p].dirty && p < sources)
      && (p in pages && p in recorded ==> pages[p] == recorded[p])
  }

  ghost predicate Expected(
      contents: Id -> Option<seq<Byte>>, was: Memory, recorded: map<nat, Origin>, pages: map<nat, Origin>, m: Memory,
      run: SourceRun, from: nat)
  {
    && Sound(contents, recorded, was)
    && SourceRunHolds(recorded, was.flags, run, SourceStart(run), SourceCount(run))
    && NoSource(recorded, was.flags, from, SourceStart(run))
    && PagesBack(was, recorded, m, from, 0) && RecordBack(was, recorded, pages, from)
  }

  // ---------------------------------------------------------------- writing whole pages

  lemma {:induction false} WritePages(m: Memory, m': Memory, start: nat, count: nat, data: seq<Byte>, p: nat)
    requires |data| == count * PAGE && start + count <= |m.flags| == |m'.flags| && p < |m.flags|
    requires start * PAGE + |data| <= |m.bytes| && m'.bytes == Write(m.bytes, start * PAGE, data)
    ensures start <= p < start + count ==>
              (p - start) * PAGE + PAGE <= |data| && PageBytes(m', p) == Slice(data, (p - start) * PAGE, PAGE)
    ensures !(start <= p < start + count) ==> PageBytes(m', p) == PageBytes(m, p)
  {
  }

  /** A store of whole pages to pages that are not executable. */
  lemma {:induction false} StorePages(m: Memory, start: nat, count: nat, data: seq<Byte>)
    requires |data| == count * PAGE && 0 < count && start + count <= |m.flags|
    requires forall p :: start <= p < start + count ==> !m.flags[p].executable
    ensures start * PAGE + |data| <= |m.bytes|
    ensures StoreBytes(m, start * PAGE, data) == Outcome(Put(m, start * PAGE, data), None)
    ensures Put(m, start * PAGE, data).flags == Mark(m.flags, start, start + count - 1, DIRTY)
  {
    assert m.Valid() && start * PAGE + count * PAGE == (start + count) * PAGE <= |m.flags| * PAGE;
    PartsOfAddress(start, 0);
    PartsOfAddress(start + count - 1, PAGE - 1);
    hide PageOf, Put, Mark;
    assert LastPage(start * PAGE, |data|) == start + count - 1;
  }

  // ---------------------------------------------------------------- source runs

  /** The source still has the whole run, and its pages are blank and writable. */
  lemma {:induction false} RunLoads(
      load: Loader, contents: Id -> Option<seq<Byte>>, was: Memory, recorded: map<nat, Origin>, pages: map<nat, Origin>,
      m: Memory, run: SourceRun, from: nat)
    requires Stable(load, contents) && Expected(contents, was, recorded, pages, m, run, from)
    ensures var loaded, start, count := load(run.id, run.offset, run.length), SourceStart(run), SourceCount(run);
            && run.address == start * PAGE && start + count <= |m.flags| && 0 < count
            && loaded.Some? && |loaded.value.0| == run.length == count * PAGE
            && contents(run.id).Some? && Cut(contents(run.id).value, run.offset, loaded.value.0)
            && forall p :: start <= p < start + count ==> !m.flags[p].executable
  {
    hide SourceStart, SourceCount, PageBytes;
    var start, count := SourceStart(run), SourceCount(run);
    var last := start + count - 1;
    assert PageSound(contents, recorded, was, last);
    assert recorded[last] == Origin(run.id, run.offset + (last - start) * PAGE, run.flag);
    PageLength(was, last);
    assert StableAt(load(run.id, run.offset, run.length), contents(run.id), run.offset, run.length);
    forall p | start <= p < start + count ensures !m.flags[p].executable { assert Blank(m, p); }
  }

  lemma {:induction false} PageLength(m: Memory, p: nat)
    requires p < |m.flags|
    ensures |PageBytes(m, p)| == PAGE
  {
  }

  /** What was recorded for a page of the run is what the loaded data holds for it. */
  lemma {:induction false} RunPage(
      contents: Id -> Option<seq<Byte>>, was: Memory, recorded: map<nat, Origin>, run: SourceRun, data: seq<Byte>, start: nat,
      count: nat, p: nat)
    requires Sound(contents, recorded, was) && SourceRunHolds(recorded, was.flags, run, start, count)
    requires start <= p < start + count && |data| == count * PAGE
    requires contents(run.id).Some? && Cut(contents(run.id).value, run.offset, data)
    ensures (p - start) * PAGE + PAGE <= |data| && Slice(data, (p - start) * PAGE, PAGE) == PageBytes(was, p)
    ensures was.flags[p] == run.flag
  {
    hide PageBytes;
    assert PageSound(contents, recorded, was, p);
    PageLength(was, p);
    SliceOfSlice(contents(run.id).value, run.offset, |data|, (p - start) * PAGE, PAGE);
  }

  /** The memory after a run has been stored and flagged, before its pages are recorded. */
  ghost predicate RunStored(
      contents: Id -> Option<seq<Byte>>, m: Memory, run: SourceRun, start: nat, count: nat, data: seq<Byte>, m': Memory)
  {
    && |data| == count * PAGE && contents(run.id).Some? && Cut(contents(run.id).value, run.offset, data)
    && start * PAGE + |data| <= |m.bytes| && |m'.flags| == |m.flags|
    && m'.bytes == Write(m.bytes, start * PAGE, data)
    && m'.flags == Mark(Mark(m.flags, start, start + count - 1, DIRTY), start, start + count - 1, run.flag)
  }

  /** Recording takes the dirty bit off again, so the pages of the run are back. */
  lemma {:induction false} SourceRestores(
      contents: Id -> Option<seq<Byte>>, was: Memory, recorded: map<nat, Origin>, pages: map<nat, Origin>, m: Memory,
      run: SourceRun, from: nat, data: seq<Byte>, m': Memory)
    requires Expected(contents, was, recorded, pages, m, run, from)
    requires RunStored(contents, m, run, SourceStart(run), SourceCount(run), data, m')
    ensures PagesBack(was, recorded, m'.(flags := Cleaned(m'.flags, SourceStart(run), SourceCount(run))),
                      SourceStart(run) + SourceCount(run), 0)
  {
    hide PageBytes, SourceStart, SourceCount, Sound, Write, Cut;
    var start, count := SourceStart(run), SourceCount(run);
    var m'' := m'.(flags := Cleaned(m'.flags, start, count));
    forall p | 0 <= p < |was.flags|
      ensures if Due(was, recorded, p, start + count, 0) then Back(was, m'', p) else Blank(m'', p)
    {
      SamePageBytes(m', m'', p);
      WritePages(m, m', start, count, data, p);
      if start <= p < start + count {
        RunPage(contents, was, recorded, run, data, start, count, p);
        assert Blank(m, p);
      } else {
        assert Due(was, recorded, p, start + count, 0) == Due(was, recorded, p, from, 0);
      }
    }
  }

  /** And each is recorded as it was. */
  lemma {:induction false} RecordRestores(
      contents: Id -> Option<seq<Byte>>, was: Memory, recorded: map<nat, Origin>, pages: map<nat, Origin>, m: Memory,
      run: SourceRun, from: nat, data: seq<Byte>, m': Memory)
    requires Expected(contents, was, recorded, pages, m, run, from)
    requires RunStored(contents, m, run, SourceStart(run), SourceCount(run), data, m')
    ensures var start, count := SourceStart(run), SourceCount(run);
            && start + count <= |m'.flags|
            && RecordBack(was, recorded, Recorded(pages, m'.flags, start, count, run.id, run.offset), start + count)
  {
    hide PageBytes, SourceStart, SourceCount, Sound, Write, Cut;
    var start, count := SourceStart(run), SourceCount(run);
    forall p | start <= p < start + count
      ensures p in recorded && Origin(run.id, run.offset + (p - start) * PAGE, m'.flags[p].AndNot(DIRTY)) == recorded[p]
    {
      RunPage(contents, was, recorded, run, data, start, count, p);
      assert Blank(m, p);
    }
  }

  /** After the last source run no clean recorded page is missing. */
  lemma {:induction false} SourcesDone(was: Memory, recorded: map<nat, Origin>, pages: map<nat, Origin>, m: Memory, from: nat)
    requires NoSource(recorded, was.flags, from, |was.flags|)
    requires PagesBack(was, recorded, m, from, 0) && RecordBack(was, recorded, pages, from)
    ensures PagesBack(was, recorded, m, |was.flags|, 0) && RecordBack(was, recorded, pages, |was.flags|)
  {
  }

  // ---------------------------------------------------------------- dirty runs

  /** The state in which the dirty runs are put back. */
  ghost predicate ExpectedDirty(was: Memory, recorded: map<nat, Origin>, m: Memory, run: DirtyRun, from: nat) {
    && DirtyRunHolds(was, run, DirtyStart(run), DirtyCount(run))
    && NoDirty(was.flags, from, DirtyStart(run))
    && PagesBack(was, recorded, m, |was.flags|, from)
  }

  lemma {:induction false} DirtyRunFits(was: Memory, recorded: map<nat, Origin>, m: Memory, run: DirtyRun, from: nat)
    requires ExpectedDirty(was, recorded, m, run, from)
    ensures var start, count := DirtyStart(run), DirtyCount(run);
            && run.address == start * PAGE && start + count <= |m.flags| && 0 < count && |run.content| == count * PAGE
            && forall p :: start <= p < start + count ==> !m.flags[p].executable
  {
    hide DirtyStart, DirtyCount, PageBytes;
    var start, count := DirtyStart(run), DirtyCount(run);
    forall p | start <= p < start + count ensures !m.flags[p].executable { assert Blank(m, p); }
  }

  lemma {:induction false} DirtyRestores(was: Memory, recorded: map<nat, Origin>, m: Memory, run: DirtyRun, from: nat, m': Memory)
    requires ExpectedDirty(was, recorded, m, run, from)
    requires var start, count := DirtyStart(run), DirtyCount(run);
             && start * PAGE + |run.content| <= |m.bytes| && |m'.flags| == |m.flags|
             && m'.bytes == Write(m.bytes, start * PAGE, run.content)
             && m'.flags == Mark(Mark(m.flags, start, start + count - 1, DIRTY), start, start + count - 1, run.flag)
    ensures PagesBack(was, recorded, m', |was.flags|, DirtyStart(run) + DirtyCount(run))
  {
    hide PageBytes, DirtyStart, DirtyCount, Write;
    var start, count := DirtyStart(run), DirtyCount(run);
    forall p | 0 <= p < |was.flags|
      ensures if Due(was, recorded, p, |was.flags|, start + count) then Back(was, m', p) else Blank(m', p)
    {
      WritePages(m, m', start, count, run.content, p);
      if start <= p < start + count {
        assert Blank(m, p);
      } else {
        assert Due(was, recorded, p, |was.flags|, start + count) == Due(was, recorded, p, |was.flags|, from);
      }
    }
  }

  /** What no run covers was never touched, so the whole memory is back. */
  lemma {:induction false} AllBack(contents: Id -> Option<seq<Byte>>, was: Memory, recorded: map<nat, Origin>, m: Memory, from: nat)
    requires Sound(contents, recorded, was) && PagesBack(was, recorded, m, |was.flags|, from)
    requires NoDirty(was.flags, from, |was.flags|)
    ensures m.(lr := was.lr) == was
  {
    hide PageBytes;
    var m': Memory := m.(lr := was.lr);
    forall p | 0 <= p < |was.flags| ensures m'.flags[p] == was.flags[p] && PageBytes(m', p) == PageBytes(was, p) {
      SamePageBytes(m, m', p);
      assert PageSound(contents, recorded, was, p);
      assert if Due(was, recorded, p, |was.flags|, from) then Back(was, m, p) else Blank(m, p);
    }
    SamePages(was, m');
  }

  lemma {:induction false} FreshIsBlank(was: Memory, recorded: map<nat, Origin>)
    requires |was.flags| * PAGE < TWO63
    ensures PagesBack(was, recorded, Fresh(|was.flags|), 0, 0) && RecordBack(was, recorded, map[], 0)
  {
  }

  // ---------------------------------------------------------------- the operations of a resume

  /** Any operation of the memory interface but `init_pages`. */
  predicate Quiet(ops: seq<Op>) { forall op :: op in ops ==> Feasible(op) && !op.OpInit? }

  /** The operations lead from one memory to the other. */
  ghost predicate Via(m: Memory, ops: seq<Op>, m': Memory) { Quiet(ops) && Run(m, ops).0 == m' }

  lemma {:induction false} ViaNone(m: Memory)
    ensures Via(m, [], m)
  {
  }

  lemma {:induction false} ViaOne(m: Memory, ops: seq<Op>, m': Memory, op: Op)
    requires Via(m, ops, m') && Feasible(op) && !op.OpInit?
    ensures Via(m, ops + [op], Apply(m', op).0)
  {
    hide Apply;
    assert (ops + [op])[..|ops|] == ops;
  }

  lemma {:induction false} ViaThen(m: Memory, ops: seq<Op>, m': Memory, more: seq<Op>, m'': Memory)
    requires Via(m, ops, m') && Via(m', more, m'')
    ensures Via(m, ops + more, m'')
    decreases |more|
  {
    hide Apply;
    if more == [] {
      assert ops + more == ops;
    } else {
      var n := |more| - 1;
      ViaThen(m, ops, m', more[..n], Run(m', more[..n]).0);
      ViaOne(m, ops + more[..n], Run(m', more[..n]).0, more[n]);
      assert ops + more[..n] + [more[n]] == ops + more;
    }
  }

  /** The flags of consecutive pages set, or their dirty bits cleared. */
  function SetOps(first: nat, count: nat, f: Flags): seq<Op>
    requires first + count <= TWO64
  {
    seq(count, i requires 0 <= i < count => OpSetFlag(first + i, f))
  }

  function CleanOps(first: nat, count: nat): seq<Op>
    requires first + count <= TWO64
  {
    seq(count, i requires 0 <= i < count => OpClearFlag(first + i, DIRTY))
  }

  lemma {:induction false} SetMore(m: Memory, first: nat, count: nat, f: Flags, m': Memory)
    requires first + count < TWO64 && Via(m, SetOps(first, count, f), m')
    ensures Via(m, SetOps(first, count + 1, f), SetFlag(m', first + count, f).mem)
  {
    hide Via;
    ViaOne(m, SetOps(first, count, f), m', OpSetFlag(first + count, f));
    assert SetOps(first, count, f) + [OpSetFlag(first + count, f)] == SetOps(first, count + 1, f);
  }

  lemma {:induction false} CleanedVia(m: Memory, first: nat, count: nat)
    requires first + count <= |m.flags|
    ensures Via(m, CleanOps(first, count), m.(flags := Cleaned(m.flags, first, count)))
    decreases count
  {
    hide Via;
    if count == 0 {
      ViaNone(m);
      assert Cleaned(m.flags, first, 0) == m.flags;
    } else {
      var n := count - 1;
      CleanedVia(m, first, n);
      var m': Memory := m.(flags := Cleaned(m.flags, first, n));
      ViaOne(m, CleanOps(first, n), m', OpClearFlag(first + n, DIRTY));
      assert CleanOps(first, n) + [OpClearFlag(first + n, DIRTY)] == CleanOps(first, count);
      assert Cleaned(m.flags, first, count) == Cleaned(m.flags, first, n)[first + n := m.flags[first + n].AndNot(DIRTY)];
    }
  }

  /** Recording pages only clears dirty bits. */
  lemma {:induction false} TrackVia(t: Tracked, start: U64, length: nat, id: Id, offset: nat)
    requires length < TWO63 && Track(t, start, length, id, offset).error.None?
    ensures FirstWhole(start) + WholePages(start, length) <= TWO64
    ensures Via(t.mem, CleanOps(FirstWhole(start), WholePages(start, length)), Track(t, start, length, id, offset).state.mem)
  {
    hide Via, Recorded;
    var first, count := FirstWhole(start), WholePages(start, length);
    if count == 0 {
      ViaNone(t.mem);
      assert CleanOps(first, 0) == [];
    } else {
      CleanedVia(t.mem, first, count);
    }
  }

  /** What resuming does to memory for one run, for all of them, and altogether. */
  function SourceOps(load: Loader, run: SourceRun): seq<Op>
    requires run.address < TWO64
  {
    match load(run.id, run.offset, run.length)
    case None => []
    case Some((data, _)) =>
      if |data| >= TWO63 then []
      else [OpStoreBytes(run.address, data)] + SetOps(run.address / PAGE, |data| / PAGE, run.flag)
           + CleanOps(FirstWhole(run.address), WholePages(run.address, |data|))
  }

  function DirtyOps(run: DirtyRun): seq<Op>
    requires run.address < TWO64 && |run.content| < TWO63
  {
    [OpStoreBytes(run.address, run.content)] + SetOps(run.address / PAGE, |run.content| / PAGE, run.flag)
  }

  function AllSourceOps(load: Loader, runs: seq<SourceRun>, n: nat): seq<Op>
    requires n <= |runs| && forall i :: 0 <= i < |runs| ==> runs[i].address < TWO64
  {
    if n == 0 then [] else AllSourceOps(load, runs, n - 1) + SourceOps(load, runs[n - 1])
  }

  function AllDirtyOps(runs: seq<DirtyRun>, n: nat): seq<Op>
    requires n <= |runs| && forall i :: 0 <= i < |runs| ==> runs[i].address < TWO64 && |runs[i].content| < TWO63
  {
    if n == 0 then [] else AllDirtyOps(runs, n - 1) + DirtyOps(runs[n - 1])
  }

  function ResumeOps(load: Loader, snapshot: Snapshot): seq<Op>
    requires forall i :: 0 <= i < |snapshot.pagesFromSource| ==> snapshot.pagesFromSource[i].address < TWO64
    requires forall i :: 0 <= i < |snapshot.dirtyPages| ==>
               snapshot.dirtyPages[i].address < TWO64 && |snapshot.dirtyPages[i].content| < TWO63
  {
    AllSourceOps(load, snapshot.pagesFromSource, |snapshot.pagesFromSource|)
    + AllDirtyOps(snapshot.dirtyPages, |snapshot.dirtyPages|) + [OpSetLr(snapshot.lr)]
  }

  /** A store and flags set are the operations of a dirty run. */
  lemma {:induction false} DirtyVia(run: DirtyRun, m: Memory, m1: Memory, m2: Memory)
    requires run.address < TWO64 && |run.content| < TWO63 && StoreBytes(m, run.address, run.content).mem == m1
    requires Via(m1, SetOps(run.address / PAGE, |run.content| / PAGE, run.flag), m2)
    ensures Via(m, DirtyOps(run), m2)
  {
    hide Via, StoreBytes, SetOps;
    ViaNone(m);
    ViaOne(m, [], m, OpStoreBytes(run.address, run.content));
    assert [] + [OpStoreBytes(run.address, run.content)] == [OpStoreBytes(run.address, run.content)];
    ViaThen(m, [OpStoreBytes(run.address, run.content)], m1, SetOps(run.address / PAGE, |run.content| / PAGE, run.flag), m2);
  }

  /** And with the dirty bits cleared those of a source run. */
  lemma {:induction false} SourceVia(load: Loader, run: SourceRun, m: Memory, m1: Memory, t: Tracked, data: seq<Byte>)
    requires run.address < TWO64 && load(run.id, run.offset, run.length).Some? && |data| < TWO63
    requires load(run.id, run.offset, run.length).value.0 == data && StoreBytes(m, run.address, data).mem == m1
    requires Via(m1, SetOps(run.address / PAGE, |data| / PAGE, run.flag), t.mem)
    requires Track(t, run.address, |data|, run.id, run.offset).error.None?
    ensures Via(m, SourceOps(load, run), Track(t, run.address, |data|, run.id, run.offset).state.mem)
  {
    hide Via, StoreBytes, SetOps, CleanOps, Track, FirstWhole, WholePages;
    DirtyVia(DirtyRun(run.address, run.flag, data), m, m1, t.mem);
    TrackVia(t, run.address, |data|, run.id, run.offset);
    ViaThen(m, DirtyOps(DirtyRun(run.address, run.flag, data)), t.mem,
            CleanOps(FirstWhole(run.address), WholePages(run.address, |data|)),
            Track(t, run.address, |data|, run.id, run.offset).state.mem);
  }

  lemma {:induction false} MoreSources(load: Loader, runs: seq<SourceRun>, i: nat, m: Memory, m1: Memory, m2: Memory)
    requires i < |runs| && forall j :: 0 <= j < |runs| ==> runs[j].address < TWO64
    requires Via(m, AllSourceOps(load, runs, i), m1) && Via(m1, SourceOps(load, runs[i]), m2)
    ensures Via(m, AllSourceOps(load, runs, i + 1), m2)
  {
    hide Via, SourceOps;
    ViaThen(m, AllSourceOps(load, runs, i), m1, SourceOps(load, runs[i]), m2);
  }

  lemma {:induction false} MoreDirty(runs: seq<DirtyRun>, i: nat, m: Memory, m1: Memory, m2: Memory)
    requires i < |runs| && forall j :: 0 <= j < |runs| ==> runs[j].address < TWO64 && |runs[j].content| < TWO63
    requires Via(m, AllDirtyOps(runs, i), m1) && Via(m1, DirtyOps(runs[i]), m2)
    ensures Via(m, AllDirtyOps(runs, i + 1), m2)
  {
    hide Via, DirtyOps;
    ViaThen(m, AllDirtyOps(runs, i), m1, DirtyOps(runs[i]), m2);
  }
}
