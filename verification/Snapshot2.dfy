/**
 Suspending and resuming a machine (src/snapshot2.rs). The context records which pages came
 from a stable data source; a snapshot holds the dirty pages and, for the recorded ones that
 are still clean, only where they came from.
 */
module Snapshot2 {
  import opened Words
  import opened PagedMemory
  import opened Snapshots
  import opened Tracking
  import opened Restoring
  import Instructions
  import opened Machine
  import opened Stepper
  import opened Sessions
  import Stack

  /** A machine with its configuration. */
  class Guest {
    const env: Env
    const mop: bool
    var registers: Registers
    var pc: U64
    var nextPc: U64
    var cycles: U64
    var maxCycles: U64
    var running: bool
    var resetSignal: bool
    var exitCode: int
    var mem: Memory

    function Abs(): State
      reads this
    {
      State(registers, pc, nextPc, mem, cycles, maxCycles, running, resetSignal, exitCode)
    }

    constructor (env: Env, mop: bool, maxCycles: U64, pageCount: nat)
      requires pageCount * PAGE < TWO63
      ensures this.env == env && this.mop == mop
      ensures Abs() == NewState(maxCycles, pageCount)
    {
      this.env, this.mop, this.maxCycles := env, mop, maxCycles;
      registers, pc, nextPc, cycles := seq(32, i => 0), 0, 0, 0;
      running, resetSignal, exitCode := false, false, 0;
      mem := Fresh(pageCount);
    }

    method Become(s: State)
      modifies this
      ensures Abs() == s
    {
      registers, pc, nextPc, mem, cycles, maxCycles := s.regs, s.pc, s.nextPc, s.mem, s.cycles, s.maxCycles;
      running, resetSignal, exitCode := s.running, s.resetSignal, s.exitCode;
    }
  }

  function NewState(maxCycles: U64, pageCount: nat): State
    requires pageCount * PAGE < TWO63
  {
    State(seq(32, i => 0), 0, 0, Fresh(pageCount), 0, maxCycles, false, false, 0)
  }

  /** A reset machine is a new one of the same size but for the next pc, the running flag, the reset signal and the exit code. */
  lemma {:induction false} ResetIsNew(s: State, maxCycles: U64)
    ensures ResetState(s, maxCycles) == NewState(maxCycles, |s.mem.flags|)
              .(nextPc := s.nextPc, running := s.running, resetSignal := true, exitCode := s.exitCode)
  {
  }

  function SnapshotOf(pages: map<nat, Origin>, guest: Guest): Snapshot
    reads guest
  {
    var m := guest.mem;
    Snapshot(SourceRuns(pages, m.flags, |m.flags|), DirtyRuns(m, |m.flags|), guest.env.version, guest.registers, guest.pc,
             guest.cycles, guest.maxCycles, m.lr)
  }

  /** The fields of a snapshot are 64-bit. */
  predicate Fits(snapshot: Snapshot) {
    && |snapshot.registers| == 32
    && (forall i :: 0 <= i < |snapshot.pagesFromSource| ==> snapshot.pagesFromSource[i].address < TWO64)
    && (forall i :: 0 <= i < |snapshot.dirtyPages| ==>
          snapshot.dirtyPages[i].address < TWO64 && |snapshot.dirtyPages[i].content| < TWO63)
  }

  // ---------------------------------------------------------------- sorted keys

  predicate Increasing(keys: seq<nat>) { forall i, j :: 0 <= i < j < |keys| ==> keys[i] < keys[j] }

  function Insert(keys: seq<nat>, key: nat): (r: seq<nat>)
    requires Increasing(keys) && key !in keys
    ensures Increasing(r) && forall k :: k in r <==> k in keys || k == key
  {
    if keys == [] || keys[|keys| - 1] < key then keys + [key]
    else
      var before, last := keys[..|keys| - 1], keys[|keys| - 1];
      assert last in keys && key != last && forall k :: k in keys <==> k in before || k == last;
      assert forall k :: k in before ==> k < last;
      var rest := Insert(before, key);
      assert forall i :: 0 <= i < |rest| ==> rest[i] in rest;
      rest + [last]
  }

  method SortedKeys(keys: set<nat>) returns (sorted: seq<nat>)
    ensures Increasing(sorted) && forall k :: k in sorted <==> k in keys
  {
    sorted := [];
    var rest := keys;
    while rest != {}
      invariant Increasing(sorted) && rest <= keys
      invariant forall k :: k in sorted <==> k in keys && k !in rest
    {
      var key :| key in rest;
      sorted := Insert(sorted, key);
      rest := rest - {key};
    }
  }

  lemma {:induction false} SkipRuns(pages: map<nat, Origin>, flags: seq<Flags>, lo: nat, hi: nat)
    requires lo <= hi <= |flags| && forall p :: lo <= p < hi ==> p !in pages
    ensures SourceRuns(pages, flags, hi) == SourceRuns(pages, flags, lo)
    decreases hi
  {
    hide AddSource;
    if lo < hi { SkipRuns(pages, flags, lo, hi - 1); }
  }

  lemma {:induction false} NoKeysBetween(pages: map<nat, Origin>, flags: seq<Flags>, lo: nat, hi: nat, keys: seq<nat>, i: nat)
    requires lo <= hi <= |flags| && i <= |keys| && Increasing(keys) && forall k :: k in keys <==> k in pages
    requires forall j :: 0 <= j < i ==> keys[j] < lo
    requires i < |keys| ==> keys[i] >= hi
    ensures SourceRuns(pages, flags, hi) == SourceRuns(pages, flags, lo)
  {
    hide SourceRuns;
    forall p | lo <= p < hi ensures p !in pages {
      assert forall j :: 0 <= j < |keys| ==> keys[j] != p;
      assert p !in keys;
    }
    SkipRuns(pages, flags, lo, hi);
  }

  class Snapshot2Context {
    var pages: map<nat, Origin>
    const load: Loader
    ghost const contents: Id -> Option<seq<Byte>>

    ghost predicate Valid() { Stable(load, contents) }

    constructor (load: Loader, ghost contents: Id -> Option<seq<Byte>>)
      requires Stable(load, contents)
      ensures Valid() && pages == map[] && this.load == load && this.contents == contents
    {
      pages := map[];
      this.load, this.contents := load, contents;
    }

    ghost function On(guest: Guest): Tracked
      reads this`pages, guest`mem
    {
      Tracked(pages, guest.mem)
    }

    method TrackPages(guest: Guest, start: U64, length: nat, id: Id, offset: nat) returns (error: Option<Error>)
      modifies this`pages, guest`mem
      ensures Tracking.Step(On(guest), error) == Track(old(On(guest)), start, length, id, offset)
    {
      hide Cleaned, Recorded;
      ghost var t := On(guest);
      var alignedBytes := Gap(start);
      if length < alignedBytes {
        return None;
      }
      var first, count := FirstWhole(start), WholePages(start, length);
      var at := offset + alignedBytes;
      if first > |guest.mem.flags| {
        return if count > 0 then Some(OutOfBound(Wrap(first * PAGE))) else None;
      }
      RecordNone(pages, guest.mem.flags, first, id, at);
      var k := 0;
      while k < count
        invariant 0 <= k <= count && first + k <= |t.mem.flags|
        invariant On(guest) == Tracked(Recorded(t.pages, t.mem.flags, first, k, id, at), t.mem.(flags := Cleaned(t.mem.flags, first, k)))
      {
        var page := first + k;
        var cleared := ClearFlag(guest.mem, page, DIRTY);
        if cleared.error.Some? {
          return cleared.error;
        }
        RecordOne(t.pages, t.mem.flags, first, k, id, at);
        guest.mem := cleared.mem;
        var flag := guest.mem.flags[page];
        pages := pages[page := Origin(id, at + k * PAGE, flag)];
        k := k + 1;
      }
      return None;
    }

    method UntrackPages(guest: Guest, start: U64, length: nat) returns (error: Option<Error>)
      requires length < TWO64
      modifies this`pages, guest`mem
      ensures Tracking.Step(On(guest), error) == Untrack(old(On(guest)), start, length)
    {
      hide Mark, PageOf;
      if length == 0 {
        return None;
      }
      ghost var t := On(guest);
      var first: nat, last: nat := PageOf(start), PageOf(Wrap(start + length - 1));
      PageIsWord(start);
      PageIsWord(Wrap(start + length - 1));
      var page := first;
      DropNone(t.pages, first);
      MarkNone(t.mem.flags, first, first - 1, DIRTY);
      while page <= last
        invariant first <= page && (page > first ==> page <= last + 1 && page <= |t.mem.flags|)
        invariant On(guest) == Tracked(Dropped(t.pages, first, page - 1), t.mem.(flags := Mark(t.mem.flags, first, page - 1, DIRTY)))
      {
        var dirtied := SetFlag(guest.mem, page, DIRTY);
        if dirtied.error.Some? {
          return dirtied.error;
        }
        MarkOne(t.mem.flags, first, page, DIRTY);
        DropOne(t.pages, first, page);
        guest.mem := dirtied.mem;
        pages := pages - {page};
        page := page + 1;
      }
      return None;
    }

    /** Copies source data into memory and records the pages it fills. */
    method StoreBytes(guest: Guest, addr: U64, id: Id, offset: nat, length: nat, sizeAddr: U64)
      returns (r: Result<(nat, U64)>)
      requires load(id, offset, length).Some? ==> |load(id, offset, length).value.0| < TWO63
      modifies this`pages, guest`mem
      ensures (On(guest), r) == StoreData(load, old(On(guest)), addr, id, offset, length, sizeAddr)
      ensures r.Ok? <==> load(id, offset, length).Some? && Writable(old(guest.mem), sizeAddr, 8)
                         && Writable(old(guest.mem), addr, |load(id, offset, length).value.0|)
      ensures r.Ok? ==>
                var (data, full) := load(id, offset, length).value;
                && r.value == (|data|, full) && LoadBytes(guest.mem, addr, |data|) == Ok(data) && InRange(old(guest.mem), sizeAddr, 8)
                && var sized := Write(old(guest.mem.bytes), sizeAddr, ToLittleEndian(full, 8));
                   if data == [] then guest.mem.bytes == sized
                   else InRange(old(guest.mem), addr, |data|) && guest.mem.bytes == Write(sized, addr, data)
    {
      hide Track, Untrack, PagedMemory.Store, PagedMemory.StoreBytes, LoadBytes, Writable, ToLittleEndian, FirstWhole, WholePages, Gap;
      StoreDataSucceeds(load, On(guest), addr, id, offset, length, sizeAddr);
      if StoreData(load, On(guest), addr, id, offset, length, sizeAddr).1.Ok? {
        StoreDataStores(load, On(guest), addr, id, offset, length, sizeAddr);
      }
      var loaded := load(id, offset, length);
      if loaded.None? {
        return Err(SnapshotDataLoad);
      }
      var data, fullLength := loaded.value.0, loaded.value.1;
      var sized := Store(guest.mem, sizeAddr, 8, fullLength);
      guest.mem := sized.mem;
      if sized.error.Some? {
        return Err(sized.error.value);
      }
      var error := UntrackPages(guest, addr, |data|);
      if error.Some? {
        return Err(error.value);
      }
      var stored := PagedMemory.StoreBytes(guest.mem, addr, data);
      guest.mem := stored.mem;
      if stored.error.Some? {
        return Err(stored.error.value);
      }
      error := TrackPages(guest, addr, |data|, id, offset);
      return if error.Some? then Err(error.value) else Ok((|data|, fullLength));
    }

    /** Records the pages of a program that has been loaded. */
    method MarkProgram(guest: Guest, actions: seq<LoadingAction>, id: Id, offset: nat) returns (error: Option<Error>)
      requires forall i :: 0 <= i < |actions| ==> Trackable(actions[i])
      modifies this`pages, guest`mem
      ensures Tracking.Step(On(guest), error) == MarkFrom(old(On(guest)), actions, id, offset, 0)
    {
      hide Track;
      ghost var t := On(guest);
      for i := 0 to |actions|
        invariant MarkFrom(t, actions, id, offset, 0) == MarkFrom(On(guest), actions, id, offset, i)
      {
        assert Trackable(actions[i]);
        error := TrackPages(guest, SegmentStart(actions[i]), SegmentLength(actions[i]), id, offset + actions[i].sourceStart);
        if error.Some? {
          return;
        }
      }
      return None;
    }

    method MakeSnapshot(guest: Guest) returns (r: Result<Snapshot>)
      ensures (forall p :: p in pages ==> p < |guest.mem.flags|) ==> r == Ok(SnapshotOf(pages, guest))
      ensures !(forall p :: p in pages ==> p < |guest.mem.flags|) ==> r.Err?
    {
      var m := guest.mem;
      var dirtyPages := [];
      for page := 0 to |m.flags|
        invariant dirtyPages == DirtyRuns(m, page)
      {
        if m.flags[page].dirty {
          dirtyPages := AddDirty(dirtyPages, page, m.flags[page], PageBytes(m, page));
        }
      }
      var pagesFromSource := GatherSources(m.flags);
      if pagesFromSource.Err? {
        return Err(pagesFromSource.error);
      }
      return Ok(Snapshot(pagesFromSource.value, dirtyPages, guest.env.version, guest.registers, guest.pc,
                         guest.cycles, guest.maxCycles, m.lr));
    }

    /** The loop over the recorded pages in increasing order. */
    method GatherSources(flags: seq<Flags>) returns (r: Result<seq<SourceRun>>)
      ensures (forall p :: p in pages ==> p < |flags|) ==> r == Ok(SourceRuns(pages, flags, |flags|))
      ensures !(forall p :: p in pages ==> p < |flags|) ==> r.Err?
    {
      hide AddSource;
      var keys := SortedKeys(pages.Keys);
      var runs := [];
      ghost var below := 0;
      for i := 0 to |keys|
        invariant below <= |flags| && runs == SourceRuns(pages, flags, below)
        invariant forall j :: 0 <= j < i ==> keys[j] < below
        invariant forall j :: i <= j < |keys| ==> keys[j] >= below
      {
        var page := keys[i];
        if page >= |flags| {
          assert page in pages;
          return Err(OutOfBound(Wrap(page * PAGE)));
        }
        assert page in pages;
        NoKeysBetween(pages, flags, below, page, keys, i);
        if !flags[page].dirty {
          runs := AddSource(runs, page, pages[page]);
        }
        below := page + 1;
      }
      NoKeysBetween(pages, flags, below, |flags|, keys, |keys|);
      return Ok(runs);
    }

    method SetFlags(guest: Guest, first: nat, count: nat, f: Flags) returns (error: Option<Error>)
      requires first + count <= TWO64
      modifies guest`mem
      ensures first + count <= old(|guest.mem.flags|) ==>
                error.None? && guest.mem == old(guest.mem).(flags := Mark(old(guest.mem.flags), first, first + count - 1, f))
      ensures error.None? ==> Via(old(guest.mem), SetOps(first, count, f), guest.mem)
    {
      hide Mark, Via;
      ViaNone(guest.mem);
      assert SetOps(first, 0, f) == [];
      ghost var flags0, inside := guest.mem.flags, first + count <= |guest.mem.flags|;
      MarkNone(flags0, first, first - 1, f);
      for i := 0 to count
        invariant inside ==> guest.mem == old(guest.mem).(flags := Mark(flags0, first, first + i - 1, f))
        invariant Via(old(guest.mem), SetOps(first, i, f), guest.mem)
      {
        SetMore(old(guest.mem), first, i, f, guest.mem);
        if inside { MarkOne(flags0, first, first + i, f); }
        var r := SetFlag(guest.mem, first + i, f);
        guest.mem := r.mem;
        if r.error.Some? {
          return r.error;
        }
      }
      return None;
    }

    /** One run of source pages; `from` is where the runs before it end. */
    method ResumeSource(guest: Guest, run: SourceRun, ghost was: Memory, ghost recorded: map<nat, Origin>, ghost from: nat)
      returns (error: Option<Error>)
      requires Valid() && run.address < TWO64
      modifies this`pages, guest`mem
      ensures old(Expected(contents, was, recorded, pages, guest.mem, run, from)) ==>
                && error.None? && PagesBack(was, recorded, guest.mem, SourceStart(run) + SourceCount(run), 0)
                && RecordBack(was, recorded, pages, SourceStart(run) + SourceCount(run))
      ensures error.None? ==> Via(old(guest.mem), SourceOps(load, run), guest.mem)
    {
      hide Via, SetOps, SourceOps, Mark, Cleaned, Recorded, Expected, PagesBack, RecordBack, Matches, Gap, FirstWhole, WholePages, Sound, PagedMemory.StoreBytes, Put, Cut, Track;
      ghost var expected := Expected(contents, was, recorded, pages, guest.mem, run, from);
      ghost var pages0, m := pages, guest.mem;
      var loaded := load(run.id, run.offset, run.length);
      assert StableAt(loaded, contents(run.id), run.offset, run.length);
      if expected {
        RunLoads(load, contents, was, recorded, pages, m, run, from);
        StorePages(m, SourceStart(run), SourceCount(run), loaded.value.0);
        AlignedWhole(SourceStart(run), SourceCount(run));
      }
      if run.address % PAGE != 0 {
        return Some(UnalignedPage(run.address));
      }
      if loaded.None? {
        return Some(SnapshotDataLoad);
      }
      var data := loaded.value.0;
      if |data| % PAGE != 0 {
        return Some(UnalignedPage(Wrap(run.address + |data|)));
      }
      var stored := PagedMemory.StoreBytes(guest.mem, run.address, data);
      guest.mem := stored.mem;
      if stored.error.Some? {
        return stored.error;
      }
      error := SetFlags(guest, run.address / PAGE, |data| / PAGE, run.flag);
      if error.Some? {
        return;
      }
      ghost var m' := guest.mem;
      if expected { TrackWhole(Tracked(pages, guest.mem), run.address, |data|, run.id, run.offset); }
      ghost var t := On(guest);
      error := TrackPages(guest, run.address, |data|, run.id, run.offset);
      if error.None? { SourceVia(load, run, m, stored.mem, t, data); }
      if expected {
        PutBytes(m, run.address, data);
        SourceRestores(contents, was, recorded, pages0, m, run, from, data, m');
        RecordRestores(contents, was, recorded, pages0, m, run, from, data, m');
      }
    }

    method ResumeSources(guest: Guest, runs: seq<SourceRun>, ghost was: Memory, ghost recorded: map<nat, Origin>)
      returns (error: Option<Error>)
      requires Valid() && forall i :: 0 <= i < |runs| ==> runs[i].address < TWO64
      modifies this`pages, guest`mem
      ensures old(Sound(contents, recorded, was) && SourceCover(recorded, was.flags, runs, |was.flags|)
                  && PagesBack(was, recorded, guest.mem, 0, 0) && RecordBack(was, recorded, pages, 0)) ==>
                error.None? && PagesBack(was, recorded, guest.mem, |was.flags|, 0) && RecordBack(was, recorded, pages, |was.flags|)
      ensures error.None? ==> Via(old(guest.mem), AllSourceOps(load, runs, |runs|), guest.mem)
    {
      hide Via, SourceOps, PagesBack, RecordBack, Sound, SourceRunHolds, NoSource, SourceStart, SourceCount;
      ghost var expected := Sound(contents, recorded, was) && SourceCover(recorded, was.flags, runs, |was.flags|)
                            && PagesBack(was, recorded, guest.mem, 0, 0) && RecordBack(was, recorded, pages, 0);
      ViaNone(guest.mem);
      for i := 0 to |runs|
        invariant expected ==> PagesBack(was, recorded, guest.mem, SourceEnd(runs, i), 0)
                               && RecordBack(was, recorded, pages, SourceEnd(runs, i))
        invariant Via(old(guest.mem), AllSourceOps(load, runs, i), guest.mem)
      {
        ghost var m := guest.mem;
        error := ResumeSource(guest, runs[i], was, recorded, SourceEnd(runs, i));
        if error.Some? {
          return;
        }
        MoreSources(load, runs, i, old(guest.mem), m, guest.mem);
      }
      if expected { SourcesDone(was, recorded, pages, guest.mem, SourceEnd(runs, |runs|)); }
      return None;
    }

    method ResumeDirty(guest: Guest, run: DirtyRun, ghost was: Memory, ghost recorded: map<nat, Origin>, ghost from: nat)
      returns (error: Option<Error>)
      requires run.address < TWO64 && |run.content| < TWO63
      modifies guest`mem
      ensures old(ExpectedDirty(was, recorded, guest.mem, run, from)) ==>
                error.None? && PagesBack(was, recorded, guest.mem, |was.flags|, DirtyStart(run) + DirtyCount(run))
      ensures error.None? ==> Via(old(guest.mem), DirtyOps(run), guest.mem)
    {
      hide Via, SetOps, DirtyOps, Mark, ExpectedDirty, PagesBack, PagedMemory.StoreBytes, Put;
      ghost var expected, m := ExpectedDirty(was, recorded, guest.mem, run, from), guest.mem;
      if expected {
        DirtyRunFits(was, recorded, m, run, from);
        StorePages(m, DirtyStart(run), DirtyCount(run), run.content);
      }
      if run.address % PAGE != 0 {
        return Some(UnalignedPage(run.address));
      }
      if |run.content| % PAGE != 0 {
        return Some(UnalignedPage(Wrap(run.address + |run.content|)));
      }
      var stored := PagedMemory.StoreBytes(guest.mem, run.address, run.content);
      guest.mem := stored.mem;
      if stored.error.Some? {
        return stored.error;
      }
      error := SetFlags(guest, run.address / PAGE, |run.content| / PAGE, run.flag);
      if error.Some? {
        return;
      }
      DirtyVia(run, m, stored.mem, guest.mem);
      if expected {
        PutBytes(m, run.address, run.content);
        DirtyRestores(was, recorded, m, run, from, guest.mem);
      }
    }

    method ResumeAllDirty(guest: Guest, runs: seq<DirtyRun>, ghost was: Memory, ghost recorded: map<nat, Origin>)
      returns (error: Option<Error>)
      requires forall i :: 0 <= i < |runs| ==> runs[i].address < TWO64 && |runs[i].content| < TWO63
      modifies guest`mem
      ensures old(Sound(contents, recorded, was) && DirtyCover(was, runs, |was.flags|)
                  && PagesBack(was, recorded, guest.mem, |was.flags|, 0)) ==>
                error.None? && guest.mem.(lr := was.lr) == was
      ensures error.None? ==> Via(old(guest.mem), AllDirtyOps(runs, |runs|), guest.mem)
    {
      hide Via, DirtyOps, PagesBack, Sound, DirtyRunHolds, NoDirty, DirtyStart, DirtyCount;
      ghost var expected := Sound(contents, recorded, was) && DirtyCover(was, runs, |was.flags|)
                            && PagesBack(was, recorded, guest.mem, |was.flags|, 0);
      ViaNone(guest.mem);
      for i := 0 to |runs|
        invariant expected ==> PagesBack(was, recorded, guest.mem, |was.flags|, DirtyEnd(runs, i))
        invariant Via(old(guest.mem), AllDirtyOps(runs, i), guest.mem)
      {
        ghost var m := guest.mem;
        error := ResumeDirty(guest, runs[i], was, recorded, DirtyEnd(runs, i));
        if error.Some? {
          return;
        }
        MoreDirty(runs, i, old(guest.mem), m, guest.mem);
      }
      if expected { AllBack(contents, was, recorded, guest.mem, DirtyEnd(runs, |runs|)); }
      return None;
    }

    /**
     Rebuilds a machine from a snapshot. `was` and `recorded` stand for the memory and the record it
     was made from: if those were sound and the machine is fresh, all of it comes back.
     */
    method Resume(guest: Guest, snapshot: Snapshot, ghost was: Memory, ghost recorded: map<nat, Origin>)
      returns (error: Option<Error>)
      requires Valid() && Fits(snapshot)
      modifies this`pages, guest
      ensures guest.env.version != snapshot.version ==>
                error == Some(InvalidVersion) && pages == old(pages) && guest.Abs() == old(guest.Abs())
      ensures guest.env.version == snapshot.version && Sound(contents, recorded, was)
              && old(guest.mem) == Fresh(|was.flags|)
              && snapshot.pagesFromSource == SourceRuns(recorded, was.flags, |was.flags|)
              && snapshot.dirtyPages == DirtyRuns(was, |was.flags|) && snapshot.lr == was.lr ==>
                && error.None? && guest.mem == was && RecordBack(was, recorded, pages, |was.flags|)
                && guest.registers == snapshot.registers && guest.pc == snapshot.pc
                && guest.cycles == snapshot.cycles && guest.maxCycles == snapshot.maxCycles
      ensures guest.running == old(guest.running) && guest.resetSignal == old(guest.resetSignal) && guest.exitCode == old(guest.exitCode)
      ensures error.None? ==> Via(old(guest.mem), ResumeOps(load, snapshot), guest.mem)
    {
      hide Via, AllSourceOps, AllDirtyOps, Sound, SourceCover, DirtyCover, PagesBack, RecordBack, DirtyRuns, SourceRuns;
      if guest.env.version != snapshot.version {
        return Some(InvalidVersion);
      }
      FreshIsBlank(was, recorded);
      SourceRunsCover(recorded, was.flags, |was.flags|);
      DirtyRunsCover(was, |was.flags|);
      pages := map[];
      guest.registers := snapshot.registers;
      guest.nextPc := snapshot.pc;
      guest.pc := guest.nextPc;
      guest.cycles := snapshot.cycles;
      guest.maxCycles := snapshot.maxCycles;
      error := ResumeSources(guest, snapshot.pagesFromSource, was, recorded);
      if error.Some? {
        return;
      }
      ghost var sourced := guest.mem;
      error := ResumeAllDirty(guest, snapshot.dirtyPages, was, recorded);
      if error.Some? {
        return;
      }
      ghost var m := guest.mem;
      guest.mem := guest.mem.(lr := snapshot.lr);
      ViaThen(old(guest.mem), AllSourceOps(load, snapshot.pagesFromSource, |snapshot.pagesFromSource|), sourced,
              AllDirtyOps(snapshot.dirtyPages, |snapshot.dirtyPages|), m);
      ViaOne(old(guest.mem), AllSourceOps(load, snapshot.pagesFromSource, |snapshot.pagesFromSource|)
                             + AllDirtyOps(snapshot.dirtyPages, |snapshot.dirtyPages|), m, OpSetLr(snapshot.lr));
    }
  }

  lemma {:induction false} PutBytes(m: Memory, addr: nat, data: seq<Byte>)
    requires data != [] && InRange(m, addr, |data|)
    ensures Put(m, addr, data).bytes == Write(m.bytes, addr, data)
  {
  }

  /** A 64-bit address has a 64-bit page number. */
  lemma {:induction false} PageIsWord(addr: U64)
    ensures PageOf(addr) < TWO64 - 1
  {
  }

  lemma {:induction false} DropNone(pages: map<nat, Origin>, first: nat)
    ensures Dropped(pages, first, first - 1) == pages
  {
  }

  lemma {:induction false} DropOne(pages: map<nat, Origin>, first: nat, page: nat)
    requires first <= page
    ensures Dropped(pages, first, page) == Dropped(pages, first, page - 1) - {page}
  {
  }

  /** `load_binary`: every segment through `init_pages`. */
  method LoadBinary(guest: Guest, program: seq<Byte>, actions: seq<LoadingAction>) returns (error: Option<Error>)
    requires |program| < TWO63 && forall i :: 0 <= i < |actions| ==> WellFormed(actions[i], program)
    modifies guest`mem
    ensures Outcome(guest.mem, error) == LoadFrom(old(guest.mem), program, actions, 0)
  {
    hide InitPages;
    ghost var m0 := guest.mem;
    for i := 0 to |actions|
      invariant LoadFrom(m0, program, actions, 0) == LoadFrom(guest.mem, program, actions, i)
    {
      var a := actions[i];
      var r := InitPages(guest.mem, a.addr, a.size, a.flags, program[a.sourceStart..a.sourceEnd], a.offsetFromAddr);
      guest.mem := r.mem;
      if r.error.Some? {
        return r.error;
      }
    }
    return None;
  }

  /** `initialize`: the last quarter of the memory is the stack, and the stack pointer goes to its register. */
  method Initialize(guest: Guest, args: seq<seq<Byte>>) returns (error: Option<Error>)
    requires 8 * (|args| + 2) < TWO63 && guest.env.version >= 1 && |guest.mem.bytes| >= PAGE
    requires forall i :: 0 <= i < |args| ==> |args[i]| < TWO63 - 1
    modifies guest
    ensures MarksChanges(old(guest.mem), guest.mem) && |guest.mem.bytes| == old(|guest.mem.bytes|)
    ensures guest.Abs() == old(guest.Abs()).(regs := guest.registers, mem := guest.mem)
    ensures guest.registers == old(guest.registers)[Instructions.SP := guest.registers[Instructions.SP]]
    ensures var size := old(|guest.mem.bytes|);
            args == [] || Writable(old(guest.mem), size - size / 4, size / 4) ==>
              (error.None? <==> args == [] || size - size / 4 <= Stack.Bottom(args, size))
    ensures error.None? ==>
              var size := old(|guest.mem.bytes|);
              && guest.registers[Instructions.SP] == (if args == [] then Stack.Down16(size - 8) else Stack.Bottom(args, size))
              && forall a :: 0 <= a < size - size / 4 && a < |guest.mem.bytes| ==> guest.mem.bytes[a] == old(guest.mem.bytes[a])
  {
    hide MarksChanges, SameOutside, Stack.Bottom, Stack.Down16, Stack.Laid, Writable;
    var size := |guest.mem.bytes|;
    ghost var m1 := guest.mem;
    var stack := new Stack.StackMachine(guest.env.version, guest.mem);
    var r := stack.InitializeStack(args, size - size / 4, size / 4);
    guest.mem := stack.mem;
    SameSize(m1, guest.mem);
    guest.registers := Set(guest.registers, Instructions.SP, stack.sp);
    assert guest.registers[Instructions.SP] == stack.sp;
    if r.Err? {
      return Some(r.error);
    }
    StackAbove(m1.bytes, guest.mem.bytes, stack.sp, size - size / 4, size);
    return None;
  }

  lemma {:induction false} SameSize(m: Memory, m': Memory)
    requires MarksChanges(m, m')
    ensures |m'.bytes| == |m.bytes|
  {
  }

  /**
   The documented order: `load_program_with_metadata`, which also lays out the stack, and then `mark_program`. If the
   segments lie below the stack, each on its own pages, and the program comes from the source, the record is sound
   after it, whatever the outcome.
   */
  method LoadAndMark(context: Snapshot2Context, guest: Guest, program: seq<Byte>, actions: seq<LoadingAction>, entry: U64,
                     args: seq<seq<Byte>>, id: Id, offset: nat)
    returns (error: Option<Error>)
    requires |program| < TWO63 && 8 * (|args| + 2) < TWO63 && guest.env.version >= 1 && guest.mem.bytes != []
    requires forall i :: 0 <= i < |actions| ==> WellFormed(actions[i], program) && Trackable(actions[i])
    requires forall i :: 0 <= i < |args| ==> |args[i]| < TWO63 - 1
    modifies context`pages, guest
    ensures var size := old(|guest.mem.bytes|);
            && old(Sound(context.contents, context.pages, guest.mem)) && LoadTidy(old(guest.mem), program, actions, 0)
            && AllApart(actions) && (forall i :: 0 <= i < |actions| ==> actions[i].addr + actions[i].size <= size - size / 4)
            && context.contents(id).Some? && Cut(context.contents(id).value, offset, program) ==>
              Sound(context.contents, context.pages, guest.mem)
    ensures error.None? ==>
              var size := old(|guest.mem.bytes|);
              && guest.Abs() == old(guest.Abs()).(pc := entry, nextPc := entry, regs := guest.registers, mem := guest.mem)
              && guest.registers == old(guest.registers)[Instructions.SP := guest.registers[Instructions.SP]]
              && guest.registers[Instructions.SP] == if args == [] then Stack.Down16(size - 8) else Stack.Bottom(args, size)
  {
    hide LoadFrom, MarkFrom, Sound, LoadTidy, Loaded, MarksChanges, Cut, SameOutside, Stack.Bottom, Stack.Down16, Stack.Laid,
      Writable, WellFormed, Trackable, AllApart;
    ghost var pages, m0 := context.pages, guest.mem;
    ghost var sound := Sound(context.contents, pages, m0) && LoadTidy(m0, program, actions, 0);
    error := LoadBinary(guest, program, actions);
    LoadStays(m0, program, actions, 0);
    assert |guest.mem.bytes| == |m0.bytes| >= PAGE;
    if sound { LoadExact(context.contents, pages, m0, program, actions, 0); }
    if error.Some? {
      return;
    }
    guest.nextPc := entry;
    guest.pc := guest.nextPc;
    ghost var m1 := guest.mem;
    ghost var size := |guest.mem.bytes|;
    error := Initialize(guest, args);
    if sound { MarkingKeepsSound(context.contents, pages, m1, guest.mem); }
    if error.Some? {
      return;
    }
    ghost var m2 := guest.mem;
    error := context.MarkProgram(guest, actions, id, offset);
    if sound && AllApart(actions) && (forall i :: 0 <= i < |actions| ==> actions[i].addr + actions[i].size <= size - size / 4)
       && context.contents(id).Some? && Cut(context.contents(id).value, offset, program) {
      LoadedAll(m0, program, actions, 0);
      forall i | 0 <= i < |actions| ensures Loaded(m2, actions[i], program) {
        LoadedBelow(m1, m2, actions[i], program, size - size / 4);
      }
      MarkKeepsSound(context.contents, Tracked(pages, m2), actions, program, id, offset, 0);
    }
  }

  lemma {:induction false} StackAbove(b: seq<Byte>, b': seq<Byte>, sp: nat, start: nat, top: nat)
    requires b' == b || (start <= sp && SameOutside(b, b', sp, top))
    ensures |b'| == |b| && forall a :: 0 <= a < start && a < |b| ==> b'[a] == b[a]
  {
  }

  // ---------------------------------------------------------------- whole sessions

  function SessionOf(context: Snapshot2Context, guest: Guest): Session
    reads context, guest
  {
    Session(context.pages, guest.Abs())
  }

  method Handle(context: Snapshot2Context, guest: Guest, e: Event) returns (ok: bool)
    requires Admissible(context.load, e)
    modifies context`pages, guest
    ensures (SessionOf(context, guest), ok) == After(context.load, guest.env, guest.mop, old(SessionOf(context, guest)), e)
  {
    hide Apply, LoadFrom, MarkFrom, StoreData, TurnOf;
    ok := true;
    match e {
      case Start => guest.running := true;
      case TurnOnce =>
        var (s, goesOn) := TurnOf(guest.env, guest.mop, guest.Abs());
        guest.Become(s);
        return goesOn;
      case Host(op) => guest.mem := Apply(guest.mem, op).0;
      case SetRegister(r, v) => guest.registers := Set(guest.registers, r, v);
      case SetMaxCycles(limit) => guest.maxCycles := limit;
      case Reset(maxCycles) =>
        guest.registers, guest.pc, guest.mem := seq(32, i => 0), 0, BlankLike(guest.mem);
        guest.cycles, guest.maxCycles, guest.resetSignal := 0, maxCycles, true;
      case LoadProgram(program, actions, entry) =>
        var error := LoadBinary(guest, program, actions);
        if error.None? {
          guest.nextPc := entry;
          guest.pc := guest.nextPc;
        }
      case MarkProgram(actions, id, offset) =>
        var error := context.MarkProgram(guest, actions, id, offset);
      case StoreSource(addr, id, offset, length, sizeAddr) =>
        var r := context.StoreBytes(guest, addr, id, offset, length, sizeAddr);
    }
  }

  method HandleAll(context: Snapshot2Context, guest: Guest, events: seq<Event>) returns (ok: bool)
    requires forall i :: 0 <= i < |events| ==> Admissible(context.load, events[i])
    modifies context`pages, guest
    ensures (SessionOf(context, guest), ok) == AfterAll(context.load, guest.env, guest.mop, old(SessionOf(context, guest)), events, 0)
  {
    hide After, Admissible;
    ghost var x := SessionOf(context, guest);
    for i := 0 to |events|
      invariant AfterAll(context.load, guest.env, guest.mop, x, events, 0)
                == AfterAll(context.load, guest.env, guest.mop, SessionOf(context, guest), events, i)
    {
      ok := Handle(context, guest, events[i]);
      if !ok {
        return;
      }
    }
    return true;
  }

  /** The runs of a snapshot of a machine have 64-bit fields. */
  lemma {:induction false} SnapshotFits(pages: map<nat, Origin>, guest: Guest)
    ensures Fits(SnapshotOf(pages, guest))
  {
    var m := guest.mem;
    SourceRunsCover(pages, m.flags, |m.flags|);
    DirtyRunsCover(m, |m.flags|);
    var s := SnapshotOf(pages, guest);
    forall i | 0 <= i < |s.pagesFromSource| ensures s.pagesFromSource[i].address < TWO64 {
      assert SourceRunHolds(pages, m.flags, s.pagesFromSource[i], SourceStart(s.pagesFromSource[i]), SourceCount(s.pagesFromSource[i]));
    }
    forall i | 0 <= i < |s.dirtyPages| ensures s.dirtyPages[i].address < TWO64 && |s.dirtyPages[i].content| < TWO63 {
      assert DirtyRunHolds(m, s.dirtyPages[i], DirtyStart(s.dirtyPages[i]), DirtyCount(s.dirtyPages[i]));
    }
  }

  /** A machine resumed from a snapshot is the suspended one, but for the exit code and what the next turn overwrites. */
  ghost predicate Resumed(guest: Guest, other: Guest)
    reads guest, other
  {
    Interchangeable(guest.Abs().(running := false), other.Abs()) && other.exitCode == 0
  }

  /**
   Suspend and resume: if the record is sound, a snapshot resumed on a fresh machine gives back memory, flags,
   reservation, registers, pc and cycles, with the same record of every clean page, and the snapshot of that machine
   is the same snapshot.
   */
  method SuspendAndResume(context: Snapshot2Context, guest: Guest, other: Guest)
    returns (snapshot: Result<Snapshot>, error: Option<Error>, context': Snapshot2Context)
    requires context.Valid() && other != guest && other.env.version == guest.env.version
    requires other.mem == Fresh(|guest.mem.flags|) && !other.running && other.exitCode == 0
    modifies other
    ensures context'.Valid() && context'.contents == context.contents && context'.load == context.load && fresh(context')
    ensures Sound(context.contents, context.pages, guest.mem) ==>
              && snapshot == Ok(SnapshotOf(context.pages, guest)) && error.None? && Resumed(guest, other)
              && SnapshotOf(context'.pages, other) == snapshot.value
              && Sound(context'.contents, context'.pages, other.mem) && SameRecord(guest.mem, context.pages, context'.pages)
              && Fits(snapshot.value) && Via(Fresh(|guest.mem.flags|), ResumeOps(context.load, snapshot.value), guest.mem)
  {
    hide SourceRuns, DirtyRuns, PageSound, Via, AllSourceOps, AllDirtyOps;
    context' := new Snapshot2Context(context.load, context.contents);
    snapshot := context.MakeSnapshot(guest);
    if snapshot.Err? {
      return snapshot, Some(snapshot.error), context';
    }
    SnapshotFits(context.pages, guest);
    error := context'.Resume(other, snapshot.value, guest.mem, context.pages);
    if Sound(context.contents, context.pages, guest.mem) {
      SourceRunsAgree(context.pages, context'.pages, guest.mem.flags, |guest.mem.flags|);
      RecordStaysSound(context.contents, context.pages, context'.pages, guest.mem);
    }
  }

  lemma {:induction false} RecordStaysSound(
      contents: Id -> Option<seq<Byte>>, pages: map<nat, Origin>, pages': map<nat, Origin>, m: Memory)
    requires Sound(contents, pages, m) && RecordBack(m, pages, pages', |m.flags|)
    ensures Sound(contents, pages', m)
  {
    hide PageBytes, FromSource;
    forall p | 0 <= p < |m.flags| ensures PageSound(contents, pages', m, p) {
      assert PageSound(contents, pages, m, p);
    }
  }

  /** Like sessions give the same snapshot. */
  lemma {:induction false} SameSnapshot(context: Snapshot2Context, guest: Guest, context': Snapshot2Context, other: Guest)
    requires other.env.version == guest.env.version && AlikeSessions(SessionOf(context, guest), SessionOf(context', other))
    ensures SnapshotOf(context.pages, guest) == SnapshotOf(context'.pages, other)
  {
    hide SourceRuns, DirtyRuns;
    SourceRunsAgree(context.pages, context'.pages, guest.mem.flags, |guest.mem.flags|);
  }

  /**
   What `n` turns come to on the suspended machine and on the resumed one: the same, exit codes apart, if host code cannot
   see them; with them, if and only if the exit code was 0, or the run fails, or the program exits in it.
   */
  ghost predicate RunsAlike(guest: Guest, other: Guest, n: nat)
    reads guest, other
  {
    var s, t := guest.Abs().(running := true), other.Abs().(running := true);
    var suspended, resumed := Turns(guest.env, guest.mop, s, n), Turns(guest.env, guest.mop, t, n);
    && (guest.exitCode == 0 ==> resumed == suspended)
    && (HostIgnoresExit(guest.env) ==>
          && (if suspended.Ok? then resumed.Ok? && WithExit(resumed, 0) == WithExit(suspended, 0) else resumed == suspended)
          && (resumed == suspended <==> guest.exitCode == 0 || suspended.Err? || Exits(guest.env, guest.mop, s, n)))
  }

  /** Running on from the resumed machine is running on from the suspended one. */
  lemma {:induction false} RunsOn(guest: Guest, other: Guest, n: nat)
    requires Resumed(guest, other) && n > 0
    ensures RunsAlike(guest, other, n)
  {
    hide Turns, Exits, HostIgnoresExit;
    var s, t := guest.Abs().(running := true), other.Abs().(running := true);
    TurnsAlike(guest.env, guest.mop, s.(exitCode := 0), t, n);
    if HostIgnoresExit(guest.env) { ExitApart(guest.env, guest.mop, s, 0, n); }
    if guest.exitCode == 0 { assert s.(exitCode := 0) == s; }
  }

  /**
   From a new machine through any events to a snapshot, and from the snapshot to a second machine. If every load, mark
   and reset kept the record sound, the second machine runs on as the first one would.
   */
  method SuspendSession(
      load: Loader, ghost contents: Id -> Option<seq<Byte>>, env: Env, mop: bool, maxCycles: U64, pageCount: nat, events: seq<Event>)
    returns (ok: bool, context: Snapshot2Context, guest: Guest, context': Snapshot2Context, other: Guest)
    requires Stable(load, contents) && HostMarks(env) && pageCount * PAGE < TWO63
    requires forall i :: 0 <= i < |events| ==> Admissible(load, events[i])
    ensures guest.env == other.env == env && guest.mop == other.mop == mop && guest != other && context != context'
    ensures context.load == context'.load == load && context.contents == context'.contents == contents
    ensures fresh({context, guest, context', other})
    ensures (SessionOf(context, guest), ok) == AfterAll(load, env, mop, Session(map[], NewState(maxCycles, pageCount)), events, 0)
    ensures ok && KeepsAll(load, contents, env, mop, Session(map[], NewState(maxCycles, pageCount)), events, 0) ==>
              && Resumed(guest, other) && SameRecord(guest.mem, context.pages, context'.pages)
              && Sound(contents, context'.pages, other.mem)
              && SnapshotOf(context.pages, guest) == SnapshotOf(context'.pages, other)
              && forall n: nat :: n > 0 ==> RunsAlike(guest, other, n)
  {
    hide Snapshots.Sound, Admissible, Stable, AfterAll, KeepsAll, SoundAll, HostMarks, SameRecord, RunsAlike, Resumed, SourceRuns, DirtyRuns;
    context := new Snapshot2Context(load, contents);
    guest := new Guest(env, mop, maxCycles, pageCount);
    FreshIsSound(contents, pageCount);
    EventsExact(load, contents, env, mop, SessionOf(context, guest), events, 0);
    ghost var kept := KeepsAll(load, contents, env, mop, SessionOf(context, guest), events, 0);
    ok := HandleAll(context, guest, events);
    assert guest.mem.Valid();
    other := new Guest(env, mop, maxCycles, |guest.mem.flags|);
    var snapshot, error;
    snapshot, error, context' := SuspendAndResume(context, guest, other);
    if ok && kept {
      forall n: nat | n > 0 ensures RunsAlike(guest, other, n) {
        RunsOn(guest, other, n);
      }
    }
  }

  /**
   Later events, done on the suspended and on the resumed machine: nothing they do tells the machines apart, exit codes
   aside, and the snapshots are the same unless one of them was a reset.
   */
  method RunOn(context: Snapshot2Context, guest: Guest, context': Snapshot2Context, other: Guest, later: seq<Event>)
    returns (ok: bool, okToo: bool)
    requires guest.env == other.env && guest.mop == other.mop && guest != other && context != context' && context.load == context'.load
    requires forall i :: 0 <= i < |later| ==> Admissible(context.load, later[i])
    requires Resumed(guest, other) && (guest.exitCode == 0 || HostIgnoresExit(guest.env))
    requires SameRecord(guest.mem, context.pages, context'.pages)
    modifies context`pages, guest, context'`pages, other
    ensures ok == okToo && Interchangeable(guest.Abs(), other.Abs())
    ensures var x := Session(old(context.pages), old(guest.Abs()).(running := true));
            && (guest.exitCode == other.exitCode <==>
                  old(guest.exitCode) == 0 || ExitsIn(context.load, guest.env, guest.mop, x, later, 0))
            && (NeverReset(context.load, guest.env, guest.mop, x, later, 0) ==>
                  SnapshotOf(context.pages, guest) == SnapshotOf(context'.pages, other))
  {
    hide Admissible, AfterAll, HostIgnoresExit, SameRecord, SourceRuns, DirtyRuns, ExitsIn, NeverReset;
    guest.running := true;
    other.running := true;
    ghost var x := SessionOf(context, guest);
    EventsAlike(context.load, guest.env, guest.mop, x, SessionOf(context', other), later, 0);
    ok := HandleAll(context, guest, later);
    okToo := HandleAll(context', other, later);
    if NeverReset(context.load, guest.env, guest.mop, x, later, 0) { SameSnapshot(context, guest, context', other); }
  }
}
