/**
 Recording pages that come from a data source (src/snapshot2.rs): which whole pages a byte range
 holds, what recording and forgetting them does, and that both keep the record sound.
 */
module Tracking {
  import opened Words
  import opened PagedMemory
  import opened Snapshots

  // ---------------------------------------------------------------- recording pages

  function Gap(start: nat): nat { (PAGE - start % PAGE) % PAGE }

  /** The whole pages inside a byte range: the first one, and how many. */
  function FirstWhole(start: U64): nat { Wrap(start + Gap(start)) / PAGE }

  function WholePages(start: U64, length: nat): nat {
    if length < Gap(start) then 0 else (length - Gap(start)) / PAGE
  }

  /** The record after the first `count` whole pages from `first` on. */
  function Recorded(pages: map<nat, Origin>, flags: seq<Flags>, first: nat, count: nat, id: Id, offset: nat): map<nat, Origin>
    requires first + count <= |flags|
  {
    pages + map p | first <= p < first + count :: Origin(id, offset + (p - first) * PAGE, flags[p].AndNot(DIRTY))
  }

  function Cleaned(flags: seq<Flags>, first: nat, count: nat): (r: seq<Flags>)
    ensures |r| == |flags|
  {
    seq(|flags|, p requires 0 <= p < |flags| => if first <= p < first + count then flags[p].AndNot(DIRTY) else flags[p])
  }

  /** Every whole page of the range holds what the source has for it. */
  ghost predicate Matches(contents: Id -> Option<seq<Byte>>, m: Memory, first: nat, count: nat, id: Id, offset: nat) {
    forall p :: first <= p < first + count && p < |m.flags| ==>
      FromSource(contents, Origin(id, offset + (p - first) * PAGE, NO_FLAGS), PageBytes(m, p))
  }

  lemma {:induction false} RecordOne(pages: map<nat, Origin>, flags: seq<Flags>, first: nat, k: nat, id: Id, offset: nat)
    requires first + k < |flags|
    ensures Cleaned(flags, first, k)[first + k] == flags[first + k]
    ensures Cleaned(flags, first, k + 1) == Cleaned(flags, first, k)[first + k := flags[first + k].AndNot(DIRTY)]
    ensures Recorded(pages, flags, first, k + 1, id, offset)
            == Recorded(pages, flags, first, k, id, offset)[first + k := Origin(id, offset + k * PAGE, flags[first + k].AndNot(DIRTY))]
  {
  }

  lemma {:induction false} RecordNone(pages: map<nat, Origin>, flags: seq<Flags>, first: nat, id: Id, offset: nat)
    requires first <= |flags|
    ensures Cleaned(flags, first, 0) == flags && Recorded(pages, flags, first, 0, id, offset) == pages
  {
  }

  /** Recording pages keeps the record sound if and only if each holds its source slice. */
  lemma {:induction false} RecordingExact(
      contents: Id -> Option<seq<Byte>>, pages: map<nat, Origin>, m: Memory, first: nat, count: nat, id: Id, offset: nat)
    requires Sound(contents, pages, m) && first + count <= |m.flags|
    ensures Sound(contents, Recorded(pages, m.flags, first, count, id, offset), m.(flags := Cleaned(m.flags, first, count)))
            <==> Matches(contents, m, first, count, id, offset)
  {
    hide PageBytes, Cut;
    var pages', m' := Recorded(pages, m.flags, first, count, id, offset), m.(flags := Cleaned(m.flags, first, count));
    forall p | 0 <= p < |m.flags|
      ensures PageSound(contents, pages', m', p) <==>
              (first <= p < first + count ==> FromSource(contents, Origin(id, offset + (p - first) * PAGE, NO_FLAGS), PageBytes(m, p)))
    {
      SamePageBytes(m, m', p);
      assert PageSound(contents, pages, m, p);
    }
  }

  // ---------------------------------------------------------------- source data in memory

  /** The whole pages inside a range of memory, by address. */
  lemma {:induction false} WholePageBounds(start: U64, length: nat, p: nat)
    requires start + length < TWO63
    requires FirstWhole(start) <= p < FirstWhole(start) + WholePages(start, length)
    ensures start <= p * PAGE && p * PAGE + PAGE <= start + length
    ensures Gap(start) + (p - FirstWhole(start)) * PAGE == p * PAGE - start
  {
  }

  /** Data from the source that lies in memory matches the source page by page. */
  lemma {:induction false} DataMatches(
      contents: Id -> Option<seq<Byte>>, m: Memory, addr: U64, data: seq<Byte>, id: Id, offset: nat)
    requires InRange(m, addr, |data|) && Slice(m.bytes, addr, |data|) == data
    requires contents(id).Some? && (data != [] ==> Cut(contents(id).value, offset, data))
    ensures Matches(contents, m, FirstWhole(addr), WholePages(addr, |data|), id, offset + Gap(addr))
    ensures WholePages(addr, |data|) > 0 ==> FirstWhole(addr) + WholePages(addr, |data|) <= |m.flags|
  {
    hide FirstWhole, WholePages, Gap;
    var first, count := FirstWhole(addr), WholePages(addr, |data|);
    if count > 0 {
      WholePageBounds(addr, |data|, first + count - 1);
      assert (first + count) * PAGE <= |m.flags| * PAGE;
    }
    forall p | first <= p < first + count && p < |m.flags|
      ensures FromSource(contents, Origin(id, offset + Gap(addr) + (p - first) * PAGE, NO_FLAGS), PageBytes(m, p))
    {
      WholePageBounds(addr, |data|, p);
      SliceOfSlice(m.bytes, addr, |data|, p * PAGE - addr, PAGE);
      SliceOfSlice(contents(id).value, offset, |data|, p * PAGE - addr, PAGE);
    }
  }

  lemma {:induction false} SliceOfSlice(bytes: seq<Byte>, at: nat, size: nat, more: nat, n: nat)
    requires at + size <= |bytes| && more + n <= size
    ensures Slice(Slice(bytes, at, size), more, n) == Slice(bytes, at + more, n)
  {
    var outer, inner := Slice(Slice(bytes, at, size), more, n), Slice(bytes, at + more, n);
    forall i | 0 <= i < n ensures outer[i] == inner[i] {
      assert outer[i] == Slice(bytes, at, size)[more + i] == bytes[at + (more + i)];
      assert inner[i] == bytes[(at + more) + i];
    }
  }

  lemma {:induction false} StoredMatches(
      contents: Id -> Option<seq<Byte>>, m: Memory, addr: U64, data: seq<Byte>, id: Id, offset: nat)
    requires |data| < TWO63 && StoreBytes(m, addr, data).error.None?
    requires contents(id).Some? && (data != [] ==> Cut(contents(id).value, offset, data))
    ensures var m' := StoreBytes(m, addr, data).mem;
            && Matches(contents, m', FirstWhole(addr), WholePages(addr, |data|), id, offset + Gap(addr))
            && (WholePages(addr, |data|) > 0 ==> FirstWhole(addr) + WholePages(addr, |data|) <= |m'.flags|)
  {
    hide Matches;
    if data == [] {
      NoWholePages(addr);
      NothingMatches(contents, m, FirstWhole(addr), id, offset + Gap(addr));
    } else {
      var m' := StoreBytes(m, addr, data).mem;
      assert Slice(m'.bytes, addr, |data|) == data;
      DataMatches(contents, m', addr, data, id, offset);
    }
  }

  lemma {:induction false} NothingMatches(contents: Id -> Option<seq<Byte>>, m: Memory, first: nat, id: Id, offset: nat)
    ensures Matches(contents, m, first, 0, id, offset)
  {
  }

  lemma {:induction false} NoWholePages(start: U64)
    ensures WholePages(start, 0) == 0
  {
  }

  lemma {:induction false} StoredLoads(before: Memory, after: Memory, m: Memory, addr: U64, data: seq<Byte>)
    requires |data| < TWO63 && StoreBytes(before, addr, data) == Outcome(after, None) && m.bytes == after.bytes
    ensures LoadBytes(m, addr, |data|) == Ok(data)
  {
  }

  lemma {:induction false} AlignedWhole(start: nat, count: nat)
    requires start * PAGE < TWO64
    ensures Gap(start * PAGE) == 0 && FirstWhole(start * PAGE) == start && WholePages(start * PAGE, count * PAGE) == count
  {
  }

  // ---------------------------------------------------------------- loaded programs

  datatype LoadingAction = LoadingAction(
    addr: U64, size: U64, flags: Flags, sourceStart: nat, sourceEnd: nat, offsetFromAddr: U64)

  /** What the segment loader computes: a slice of the program that starts inside the segment. */
  predicate WellFormed(action: LoadingAction, program: seq<Byte>) {
    action.sourceStart <= action.sourceEnd <= |program| && action.offsetFromAddr <= action.size
  }

  predicate Apart(a: LoadingAction, b: LoadingAction) {
    a.addr + a.size <= b.addr || b.addr + b.size <= a.addr
  }

  predicate AllApart(actions: seq<LoadingAction>) {
    forall i, j :: 0 <= i < j < |actions| ==> Apart(actions[i], actions[j])
  }

  function SegmentStart(action: LoadingAction): nat { action.addr + action.offsetFromAddr }

  function SegmentLength(action: LoadingAction): nat
    requires action.sourceStart <= action.sourceEnd && action.offsetFromAddr <= action.size
  {
    var length, room := action.sourceEnd - action.sourceStart, action.size - action.offsetFromAddr;
    if length < room then length else room
  }

  /** The segment's slice of the program is in memory. */
  ghost predicate Loaded(m: Memory, action: LoadingAction, program: seq<Byte>) {
    && WellFormed(action, program) && InRange(m, action.addr, action.size)
    && Slice(m.bytes, SegmentStart(action), SegmentLength(action)) == Slice(program, action.sourceStart, SegmentLength(action))
  }

  /** The bytes after `init_pages`: the image on success, otherwise as before. */
  lemma {:induction false} InitBytes(m: Memory, addr: U64, size: U64, f: Flags, source: seq<Byte>, offset: U64)
    ensures var o := InitPages(m, addr, size, f, source, offset);
            && (o.error.Some? ==> o.mem.bytes == m.bytes)
            && (o.error.None? ==> InRange(m, addr, size) && o.mem.bytes == Write(m.bytes, addr, Image(size, source, offset)))
  {
    hide Mark, FirstFreezed, Image;
    if size == 0 && addr <= |m.bytes| { assert Write(m.bytes, addr, Image(0, source, offset)) == m.bytes; }
  }

  lemma {:induction false} InitLoads(m: Memory, action: LoadingAction, program: seq<Byte>)
    requires WellFormed(action, program) && |program| < TWO63
    requires InitPages(m, action.addr, action.size, action.flags,
                       program[action.sourceStart..action.sourceEnd], action.offsetFromAddr).error.None?
    ensures Loaded(InitPages(m, action.addr, action.size, action.flags,
                             program[action.sourceStart..action.sourceEnd], action.offsetFromAddr).mem, action, program)
  {
    hide InitPages;
    var source := program[action.sourceStart..action.sourceEnd];
    InitBytes(m, action.addr, action.size, action.flags, source, action.offsetFromAddr);
    var bytes := Write(m.bytes, action.addr, Image(action.size, source, action.offsetFromAddr));
    var start, length := SegmentStart(action), SegmentLength(action);
    forall i | 0 <= i < length ensures Slice(bytes, start, length)[i] == Slice(program, action.sourceStart, length)[i] {
      assert bytes[start + i] == Image(action.size, source, action.offsetFromAddr)[action.offsetFromAddr + i];
    }
  }

  /** Loading a segment leaves the bytes of segments apart from it alone. */
  lemma {:induction false} InitKeepsLoaded(m: Memory, action: LoadingAction, other: LoadingAction, program: seq<Byte>)
    requires WellFormed(action, program) && |program| < TWO63 && Loaded(m, other, program) && Apart(other, action)
    ensures Loaded(InitPages(m, action.addr, action.size, action.flags,
                             program[action.sourceStart..action.sourceEnd], action.offsetFromAddr).mem, other, program)
  {
    hide InitPages, Image;
    var source := program[action.sourceStart..action.sourceEnd];
    InitBytes(m, action.addr, action.size, action.flags, source, action.offsetFromAddr);
    var m' := InitPages(m, action.addr, action.size, action.flags, source, action.offsetFromAddr).mem;
    assert Slice(m'.bytes, SegmentStart(other), SegmentLength(other)) == Slice(m.bytes, SegmentStart(other), SegmentLength(other));
  }

  /** So does whatever stays above it. */
  lemma {:induction false} LoadedBelow(m: Memory, m': Memory, action: LoadingAction, program: seq<Byte>, limit: nat)
    requires Loaded(m, action, program) && action.addr + action.size <= limit
    requires |m'.bytes| == |m.bytes| && forall a :: 0 <= a < limit && a < |m.bytes| ==> m'.bytes[a] == m.bytes[a]
    ensures Loaded(m', action, program)
  {
    assert Slice(m'.bytes, SegmentStart(action), SegmentLength(action)) == Slice(m.bytes, SegmentStart(action), SegmentLength(action));
  }

  /** A loaded segment matches the source its program was read from. */
  lemma {:induction false} LoadedMatches(
      contents: Id -> Option<seq<Byte>>, m: Memory, action: LoadingAction, program: seq<Byte>, id: Id, offset: nat)
    requires Loaded(m, action, program) && contents(id).Some? && Cut(contents(id).value, offset, program)
    ensures Matches(contents, m, FirstWhole(SegmentStart(action)), WholePages(SegmentStart(action), SegmentLength(action)),
                    id, offset + action.sourceStart + Gap(SegmentStart(action)))
    ensures var first, count := FirstWhole(SegmentStart(action)), WholePages(SegmentStart(action), SegmentLength(action));
            count > 0 ==> first + count <= |m.flags|
  {
    hide Matches, FirstWhole, WholePages, Gap;
    var data := Slice(m.bytes, SegmentStart(action), SegmentLength(action));
    SliceOfSlice(contents(id).value, offset, |program|, action.sourceStart, |data|);
    DataMatches(contents, m, SegmentStart(action), data, id, offset + action.sourceStart);
  }

  // ---------------------------------------------------------------- the operations of the context, as values

  /** A record and the memory it is about. */
  datatype Tracked = Tracked(pages: map<nat, Origin>, mem: Memory)

  datatype Step = Step(state: Tracked, error: Option<Error>)

  /** `track_pages`: whole pages are recorded and cleaned in order, up to one that does not exist. */
  function Track(t: Tracked, start: U64, length: nat, id: Id, offset: nat): Step
  {
    var first, count, size := FirstWhole(start), WholePages(start, length), |t.mem.flags|;
    if count == 0 then Step(t, None)
    else if first > size then Step(t, Some(OutOfBound(Wrap(first * PAGE))))
    else
      var n := if first + count <= size then count else size - first;
      Step(Tracked(Recorded(t.pages, t.mem.flags, first, n, id, offset + Gap(start)),
                   t.mem.(flags := Cleaned(t.mem.flags, first, n))),
           if n == count then None else Some(OutOfBound(Wrap(size * PAGE))))
  }

  function Dropped(pages: map<nat, Origin>, first: nat, last: int): map<nat, Origin> {
    map p | p in pages && !(first <= p <= last) :: pages[p]
  }

  /** `untrack_pages`: pages are made dirty and forgotten in order, up to one that does not exist. */
  function Untrack(t: Tracked, start: U64, length: nat): Step
    requires length < TWO64
  {
    if length == 0 then Step(t, None)
    else
      var first, last, size := PageOf(start), PageOf(Wrap(start + length - 1)), |t.mem.flags|;
      if first > last then Step(t, None)
      else if first >= size then Step(t, Some(OutOfBound(Wrap(first * PAGE))))
      else
        var stop := if last < size then last else size - 1;
        Step(Tracked(Dropped(t.pages, first, stop), t.mem.(flags := Mark(t.mem.flags, first, stop, DIRTY))),
             if stop == last then None else Some(OutOfBound(Wrap(size * PAGE))))
  }

  /** `store_bytes`: the length, then forgetting, storing and recording the pages of the data. */
  function StoreData(load: Loader, t: Tracked, addr: U64, id: Id, offset: nat, length: nat, sizeAddr: U64): (Tracked, Result<(nat, U64)>)
    requires load(id, offset, length).Some? ==> |load(id, offset, length).value.0| < TWO63
  {
    match load(id, offset, length)
    case None => (t, Err(SnapshotDataLoad))
    case Some((data, full)) =>
      var sized := Store(t.mem, sizeAddr, 8, full);
      if sized.error.Some? then (t.(mem := sized.mem), Err(sized.error.value))
      else
        var forgotten := Untrack(t.(mem := sized.mem), addr, |data|);
        if forgotten.error.Some? then (forgotten.state, Err(forgotten.error.value))
        else
          var stored := StoreBytes(forgotten.state.mem, addr, data);
          var after := forgotten.state.(mem := stored.mem);
          if stored.error.Some? then (after, Err(stored.error.value))
          else
            var recorded := Track(after, addr, |data|, id, offset);
            (recorded.state, if recorded.error.Some? then Err(recorded.error.value) else Ok((|data|, full)))
  }

  predicate Trackable(action: LoadingAction) {
    action.sourceStart <= action.sourceEnd && action.offsetFromAddr <= action.size && SegmentStart(action) < TWO64
  }

  /** `mark_program` from action number `i` on. */
  function MarkFrom(t: Tracked, actions: seq<LoadingAction>, id: Id, offset: nat, i: nat): Step
    requires i <= |actions| && forall j :: 0 <= j < |actions| ==> Trackable(actions[j])
    decreases |actions| - i
  {
    if i == |actions| then Step(t, None)
    else
      assert Trackable(actions[i]);
      var marked := Track(t, SegmentStart(actions[i]), SegmentLength(actions[i]), id, offset + actions[i].sourceStart);
      if marked.error.Some? then marked else MarkFrom(marked.state, actions, id, offset, i + 1)
  }

  function LoadSegment(m: Memory, action: LoadingAction, program: seq<Byte>): Outcome
    requires WellFormed(action, program)
  {
    InitPages(m, action.addr, action.size, action.flags, program[action.sourceStart..action.sourceEnd], action.offsetFromAddr)
  }

  /** `load_binary` from action number `i` on. */
  function LoadFrom(m: Memory, program: seq<Byte>, actions: seq<LoadingAction>, i: nat): Outcome
    requires i <= |actions| && forall j :: 0 <= j < |actions| ==> WellFormed(actions[j], program)
    decreases |actions| - i
  {
    if i == |actions| then Outcome(m, None)
    else
      var o := LoadSegment(m, actions[i], program);
      if o.error.Some? then o else LoadFrom(o.mem, program, actions, i + 1)
  }

  /** Recording a range of pages that all exist. */
  lemma {:induction false} TrackWhole(t: Tracked, start: U64, length: nat, id: Id, offset: nat)
    requires FirstWhole(start) + WholePages(start, length) <= |t.mem.flags| && WholePages(start, length) > 0
    ensures Track(t, start, length, id, offset) ==
            Step(Tracked(Recorded(t.pages, t.mem.flags, FirstWhole(start), WholePages(start, length), id, offset + Gap(start)),
                         t.mem.(flags := Cleaned(t.mem.flags, FirstWhole(start), WholePages(start, length)))), None)
  {
    hide FirstWhole, WholePages, Gap, Recorded, Cleaned;
  }

  // ---------------------------------------------------------------- they keep the record sound

  lemma {:induction false} TrackExact(contents: Id -> Option<seq<Byte>>, t: Tracked, start: U64, length: nat, id: Id, offset: nat)
    requires Sound(contents, t.pages, t.mem)
    ensures var t' := Track(t, start, length, id, offset).state;
            Sound(contents, t'.pages, t'.mem)
            <==> Matches(contents, t.mem, FirstWhole(start), WholePages(start, length), id, offset + Gap(start))
  {
    hide Sound, Recorded, Cleaned, FirstWhole, WholePages, Gap, FromSource;
    var first, count, size := FirstWhole(start), WholePages(start, length), |t.mem.flags|;
    if count > 0 && first <= size {
      RecordingExact(contents, t.pages, t.mem, first, if first + count <= size then count else size - first, id, offset + Gap(start));
    }
  }

  lemma {:induction false} UntrackKeepsSound(contents: Id -> Option<seq<Byte>>, t: Tracked, start: U64, length: nat)
    requires Sound(contents, t.pages, t.mem) && length < TWO64
    ensures var t' := Untrack(t, start, length).state; Sound(contents, t'.pages, t'.mem)
  {
    hide PageBytes, FromSource;
    var t' := Untrack(t, start, length).state;
    forall p | 0 <= p < |t.mem.flags| ensures PageSound(contents, t'.pages, t'.mem, p) {
      SamePageBytes(t.mem, t'.mem, p);
      assert PageSound(contents, t.pages, t.mem, p);
    }
  }

  lemma {:induction false} StoreDataKeepsSound(
      load: Loader, contents: Id -> Option<seq<Byte>>, t: Tracked, addr: U64, id: Id, offset: nat, length: nat, sizeAddr: U64)
    requires Stable(load, contents) && Sound(contents, t.pages, t.mem)
    ensures load(id, offset, length).Some? ==> |load(id, offset, length).value.0| < TWO63
    ensures var t' := StoreData(load, t, addr, id, offset, length, sizeAddr).0; Sound(contents, t'.pages, t'.mem)
  {
    hide Sound, Matches, Track, Untrack, StoreBytes, Cut, ToLittleEndian, FirstWhole, WholePages, Gap;
    var loaded := load(id, offset, length);
    assert StableAt(loaded, contents(id), offset, length);
    if loaded.Some? {
      var data, full := loaded.value.0, loaded.value.1;
      StoreKeepsSound(contents, t.pages, t.mem, sizeAddr, ToLittleEndian(full, 8));
      var sized: Tracked := t.(mem := Store(t.mem, sizeAddr, 8, full).mem);
      UntrackKeepsSound(contents, sized, addr, |data|);
      var forgotten := Untrack(sized, addr, |data|).state;
      StoreKeepsSound(contents, forgotten.pages, forgotten.mem, addr, data);
      var after: Tracked := forgotten.(mem := StoreBytes(forgotten.mem, addr, data).mem);
      if StoreBytes(forgotten.mem, addr, data).error.None? {
        StoredMatches(contents, forgotten.mem, addr, data, id, offset);
        TrackExact(contents, after, addr, |data|, id, offset);
      }
    }
  }

  /** A host store succeeds exactly if the source has the data and both ranges are writable. */
  lemma {:induction false} StoreDataSucceeds(load: Loader, t: Tracked, addr: U64, id: Id, offset: nat, length: nat, sizeAddr: U64)
    requires load(id, offset, length).Some? ==> |load(id, offset, length).value.0| < TWO63
    ensures StoreData(load, t, addr, id, offset, length, sizeAddr).1.Ok? <==>
            load(id, offset, length).Some? && Writable(t.mem, sizeAddr, 8) && Writable(t.mem, addr, |load(id, offset, length).value.0|)
  {
    hide Untrack, Track, StoreBytes, ToLittleEndian, Writable;
    if load(id, offset, length).Some? {
      var (data, full) := load(id, offset, length).value;
      StoreSucceeds(t.mem, sizeAddr, ToLittleEndian(full, 8));
      var sized: Tracked := t.(mem := Store(t.mem, sizeAddr, 8, full).mem);
      UntrackSucceeds(sized, addr, |data|);
      var forgotten := Untrack(sized, addr, |data|).state;
      StillWritable(t.mem, sized.mem, forgotten.mem, addr, |data|);
      StoreSucceeds(forgotten.mem, addr, data);
      if Writable(forgotten.mem, addr, |data|) {
        TrackSucceeds(forgotten.(mem := StoreBytes(forgotten.mem, addr, data).mem), addr, |data|, id, offset);
      }
    }
  }

  lemma {:induction false} StoreSucceeds(m: Memory, addr: U64, data: seq<Byte>)
    requires |data| < TWO63
    ensures var o := StoreBytes(m, addr, data);
            && (o.error.None? <==> Writable(m, addr, |data|)) && |o.mem.flags| == |m.flags|
            && (o.error.None? ==> InRange(m, addr, |data|) || data == [])
            && forall p :: 0 <= p < |m.flags| ==> o.mem.flags[p].executable == m.flags[p].executable
  {
    hide StoreError;
    if data != [] { StoreErrorExact(m, addr, |data|); }
  }

  lemma {:induction false} UntrackSucceeds(t: Tracked, start: U64, length: nat)
    requires length < TWO63
    ensures var r := Untrack(t, start, length);
            && (Writable(t.mem, start, length) ==> r.error.None?) && |r.state.mem.flags| == |t.mem.flags| && r.state.mem.bytes == t.mem.bytes
            && forall p :: 0 <= p < |t.mem.flags| ==> r.state.mem.flags[p].executable == t.mem.flags[p].executable
  {
    if length > 0 && Writable(t.mem, start, length) { AddressParts(start + length - 1); }
  }

  lemma {:induction false} StillWritable(m: Memory, m1: Memory, m2: Memory, addr: nat, n: nat)
    requires |m.flags| == |m1.flags| == |m2.flags|
    requires forall p :: 0 <= p < |m.flags| ==> m1.flags[p].executable == m.flags[p].executable
    requires forall p :: 0 <= p < |m.flags| ==> m2.flags[p].executable == m1.flags[p].executable
    ensures Writable(m, addr, n) <==> Writable(m2, addr, n)
    ensures Writable(m, addr, n) <==> Writable(m1, addr, n)
  {
  }

  lemma {:induction false} TrackSucceeds(t: Tracked, start: U64, length: nat, id: Id, offset: nat)
    requires length == 0 || InRange(t.mem, start, length)
    ensures Track(t, start, length, id, offset).error.None?
  {
    hide FirstWhole, WholePages, Gap, Recorded, Cleaned;
    var first, count := FirstWhole(start), WholePages(start, length);
    if length == 0 { NoWholePages(start); }
    if count > 0 {
      WholePageBounds(start, length, first + count - 1);
      assert (first + count) * PAGE <= |t.mem.flags| * PAGE;
    }
  }

  /**
   A host store that succeeds leaves the full length and then the data in memory, nothing else changed, and all
   whole pages of the data recorded and clean.
   */
  lemma {:induction false} StoreDataStores(load: Loader, t: Tracked, addr: U64, id: Id, offset: nat, length: nat, sizeAddr: U64)
    requires load(id, offset, length).Some? ==> |load(id, offset, length).value.0| < TWO63
    requires StoreData(load, t, addr, id, offset, length, sizeAddr).1.Ok?
    ensures var (t', r) := StoreData(load, t, addr, id, offset, length, sizeAddr);
            var (data, full) := load(id, offset, length).value;
            && r.value == (|data|, full) && InRange(t.mem, sizeAddr, 8) && (data == [] || InRange(t.mem, addr, |data|))
            && t'.mem.bytes == var sized := Write(t.mem.bytes, sizeAddr, ToLittleEndian(full, 8));
                               if data == [] then sized else Write(sized, addr, data)
    ensures var (t', r) := StoreData(load, t, addr, id, offset, length, sizeAddr);
            var data := load(id, offset, length).value.0;
            && LoadBytes(t'.mem, addr, |data|) == Ok(data)
            && forall p :: FirstWhole(addr) <= p < FirstWhole(addr) + WholePages(addr, |data|) ==>
                 && p < |t'.mem.flags| && !t'.mem.flags[p].dirty && p in t'.pages
                 && t'.pages[p] == Origin(id, offset + Gap(addr) + (p - FirstWhole(addr)) * PAGE, t'.mem.flags[p])
  {
    hide Untrack, StoreBytes, LoadBytes, FirstWhole, WholePages, Gap, ToLittleEndian;
    var (data, full) := load(id, offset, length).value;
    var sized := Store(t.mem, sizeAddr, 8, full).mem;
    var forgotten := Untrack(t.(mem := sized), addr, |data|).state;
    var stored := StoreBytes(forgotten.mem, addr, data).mem;
    StoredBytes(t.mem, sizeAddr, ToLittleEndian(full, 8));
    UntrackSucceeds(t.(mem := sized), addr, |data|);
    StoredBytes(forgotten.mem, addr, data);
    StoredLoads(forgotten.mem, stored, StoreData(load, t, addr, id, offset, length, sizeAddr).0.mem, addr, data);
  }

  lemma {:induction false} StoredBytes(m: Memory, addr: U64, data: seq<Byte>)
    requires |data| < TWO63 && StoreBytes(m, addr, data).error.None?
    ensures data == [] || InRange(m, addr, |data|)
    ensures StoreBytes(m, addr, data).mem.bytes == if data == [] then m.bytes else Write(m.bytes, addr, data)
  {
  }

  /** A page lies inside the range exactly if it is one of the whole pages that are recorded. */
  lemma {:induction false} WholePagesExact(start: U64, length: nat, p: nat)
    requires start + length < TWO63
    ensures FirstWhole(start) <= p < FirstWhole(start) + WholePages(start, length) <==> start <= p * PAGE && p * PAGE + PAGE <= start + length
  {
  }

  /** Forgetting a range that exists dirties the pages it touches and drops them from the record; others keep flags and record. */
  lemma {:induction false} UntrackLaw(t: Tracked, start: U64, length: nat, p: nat)
    requires length == 0 || InRange(t.mem, start, length)
    ensures var r := Untrack(t, start, length);
            && r.error.None? && r.state.mem == t.mem.(flags := r.state.mem.flags) && |r.state.mem.flags| == |t.mem.flags|
            && (Touches(p, start, length) ==> p !in r.state.pages)
            && (!Touches(p, start, length) ==> SameEntry(t.pages, r.state.pages, p))
            && (p < |t.mem.flags| ==>
                  r.state.mem.flags[p] == if Touches(p, start, length) then t.mem.flags[p].Or(DIRTY) else t.mem.flags[p])
  {
    hide Touches, PageOf;
    if length == 0 { NothingTouched(p, start); } else {
      LastPageExists(t.mem, start, length);
      TouchedPages(p, start, length);
    }
  }

  predicate SameEntry(pages: map<nat, Origin>, pages': map<nat, Origin>, p: nat) {
    (p in pages' <==> p in pages) && (p in pages ==> pages'[p] == pages[p])
  }

  lemma {:induction false} LastPageExists(m: Memory, addr: U64, size: nat)
    requires size > 0 && InRange(m, addr, size)
    ensures PageOf(addr) <= LastPage(addr, size) < |m.flags| && Wrap(addr + size - 1) == addr + size - 1
  {
  }

  /**
   What a host store that succeeds leaves of the record and the flags, page by page: whole pages of data are recorded at
   their offsets and clean, pages with some data are dirty and forgotten, and the others differ at most by being dirty
   from the length.
   */
  lemma {:induction false} StoreDataPages(load: Loader, t: Tracked, addr: U64, id: Id, offset: nat, length: nat, sizeAddr: U64, p: nat)
    requires load(id, offset, length).Some? ==> |load(id, offset, length).value.0| < TWO63
    requires StoreData(load, t, addr, id, offset, length, sizeAddr).1.Ok? && p < |t.mem.flags|
    ensures var t', n := StoreData(load, t, addr, id, offset, length, sizeAddr).0, |load(id, offset, length).value.0|;
            var flag := if Touches(p, sizeAddr, 8) then t.mem.flags[p].Or(DIRTY) else t.mem.flags[p];
            && p < |t'.mem.flags|
            && if addr <= p * PAGE && p * PAGE + PAGE <= addr + n then
                 t'.mem.flags[p] == flag.AndNot(DIRTY) && p in t'.pages
                 && t'.pages[p] == Origin(id, offset + (p * PAGE - addr), t'.mem.flags[p])
               else if Touches(p, addr, n) then t'.mem.flags[p] == flag.Or(DIRTY) && p !in t'.pages
               else t'.mem.flags[p] == flag && SameEntry(t.pages, t'.pages, p)
  {
    hide Untrack, StoreBytes, Track, FirstWhole, WholePages, Gap, ToLittleEndian, Touches, Writable, SameEntry;
    StoreDataSucceeds(load, t, addr, id, offset, length, sizeAddr);
    var (data, full) := load(id, offset, length).value;
    var sized: Tracked := t.(mem := Store(t.mem, sizeAddr, 8, full).mem);
    StoredFlags(t.mem, sizeAddr, ToLittleEndian(full, 8), p);
    var forgotten := Untrack(sized, addr, |data|).state;
    UntrackSize(sized, addr, |data|);
    StoredFlags(forgotten.mem, addr, data, p);
    UntrackLaw(sized, addr, |data|, p);
    var after: Tracked := forgotten.(mem := StoreBytes(forgotten.mem, addr, data).mem);
    TrackLaw(after, addr, |data|, id, offset, p);
    if addr <= p * PAGE && p * PAGE + PAGE <= addr + |data| { InsideTouches(p, addr, |data|); }
    Entries(t.pages, forgotten.pages, Track(after, addr, |data|, id, offset).state.pages, p);
  }

  lemma {:induction false} Entries(pages: map<nat, Origin>, pages1: map<nat, Origin>, pages2: map<nat, Origin>, p: nat)
    ensures SameEntry(pages, pages1, p) && SameEntry(pages1, pages2, p) ==> SameEntry(pages, pages2, p)
    ensures p !in pages1 && SameEntry(pages1, pages2, p) ==> p !in pages2
  {
  }

  lemma {:induction false} InsideTouches(p: nat, addr: nat, n: nat)
    requires addr <= p * PAGE && p * PAGE + PAGE <= addr + n
    ensures Touches(p, addr, n)
  {
  }

  lemma {:induction false} UntrackSize(t: Tracked, start: U64, length: nat)
    requires length < TWO64
    ensures |Untrack(t, start, length).state.mem.flags| == |t.mem.flags|
  {
  }

  lemma {:induction false} StoredFlags(m: Memory, addr: U64, data: seq<Byte>, p: nat)
    requires |data| < TWO63 && StoreBytes(m, addr, data).error.None?
    ensures var m' := StoreBytes(m, addr, data).mem;
            && (data == [] || InRange(m, addr, |data|)) && |m'.flags| == |m.flags|
            && (p < |m.flags| ==> m'.flags[p] == if Touches(p, addr, |data|) then m.flags[p].Or(DIRTY) else m.flags[p])
  {
    hide Touches, PageOf;
    if data == [] { NothingTouched(p, addr); } else { TouchedPages(p, addr, |data|); }
  }

  lemma {:induction false} TrackLaw(t: Tracked, start: U64, length: nat, id: Id, offset: nat, p: nat)
    requires (length == 0 || InRange(t.mem, start, length)) && p < |t.mem.flags|
    ensures var t' := Track(t, start, length, id, offset).state;
            && |t'.mem.flags| == |t.mem.flags|
            && if start <= p * PAGE && p * PAGE + PAGE <= start + length then
                 t'.mem.flags[p] == t.mem.flags[p].AndNot(DIRTY) && p in t'.pages
                 && t'.pages[p] == Origin(id, offset + (p * PAGE - start), t'.mem.flags[p])
               else t'.mem.flags[p] == t.mem.flags[p] && SameEntry(t.pages, t'.pages, p)
  {
    hide FirstWhole, WholePages, Gap;
    TrackSucceeds(t, start, length, id, offset);
    if length == 0 { NoWholePages(start); } else {
      WholePagesExact(start, length, p);
      if start <= p * PAGE && p * PAGE + PAGE <= start + length { WholePageBounds(start, length, p); }
    }
  }

  /** Where data and length do not overlap, both can be read back, and every other byte is as before. */
  lemma {:induction false} StoreDataApart(load: Loader, t: Tracked, addr: U64, id: Id, offset: nat, length: nat, sizeAddr: U64)
    requires load(id, offset, length).Some? ==> |load(id, offset, length).value.0| < TWO63
    requires StoreData(load, t, addr, id, offset, length, sizeAddr).1.Ok?
    ensures var m', n := StoreData(load, t, addr, id, offset, length, sizeAddr).0.mem, |load(id, offset, length).value.0|;
            && |m'.bytes| == |t.mem.bytes|
            && (forall a :: 0 <= a < |m'.bytes| && !(sizeAddr <= a < sizeAddr + 8) && !(addr <= a < addr + n) ==> m'.bytes[a] == t.mem.bytes[a])
            && (sizeAddr + 8 <= addr || addr + n <= sizeAddr || n == 0 ==> Load(m', sizeAddr, 8) == Ok(load(id, offset, length).value.1))
  {
    hide StoreData, LoadBytes, FirstWhole, WholePages, Gap, ToLittleEndian, Load, LittleEndian, Writable;
    StoreDataSucceeds(load, t, addr, id, offset, length, sizeAddr);
    var (data, full) := load(id, offset, length).value;
    var m' := StoreData(load, t, addr, id, offset, length, sizeAddr).0.mem;
    StoreDataStores(load, t, addr, id, offset, length, sizeAddr);
    if sizeAddr + 8 <= addr || addr + |data| <= sizeAddr || data == [] {
      assert Slice(m'.bytes, sizeAddr, 8) == ToLittleEndian(full, 8);
      LoadsBack(m', sizeAddr, full);
    }
  }

  /** A sound machine into which all segments have been loaded from the source. */
  ghost predicate Marking(contents: Id -> Option<seq<Byte>>, t: Tracked, actions: seq<LoadingAction>, program: seq<Byte>, id: Id, offset: nat)
  {
    && Sound(contents, t.pages, t.mem) && contents(id).Some? && Cut(contents(id).value, offset, program)
    && forall i :: 0 <= i < |actions| ==> Loaded(t.mem, actions[i], program)
  }

  /** Marking a loaded program succeeds and leaves the record sound. */
  lemma {:induction false} MarkKeepsSound(
      contents: Id -> Option<seq<Byte>>, t: Tracked, actions: seq<LoadingAction>, program: seq<Byte>, id: Id, offset: nat, i: nat)
    requires i <= |actions| && (forall j :: 0 <= j < |actions| ==> Trackable(actions[j]))
    requires Marking(contents, t, actions, program, id, offset)
    ensures var r := MarkFrom(t, actions, id, offset, i); r.error.None? && Sound(contents, r.state.pages, r.state.mem)
    decreases |actions| - i
  {
    hide Sound, Matches, Loaded, FirstWhole, WholePages, Gap, Recorded, Cleaned, SegmentLength, Cut;
    if i < |actions| {
      var start, length, at := SegmentStart(actions[i]), SegmentLength(actions[i]), offset + actions[i].sourceStart;
      LoadedMatches(contents, t.mem, actions[i], program, id, offset);
      TrackExact(contents, t, start, length, id, at);
      var marked := Track(t, start, length, id, at);
      forall j | 0 <= j < |actions| ensures Loaded(marked.state.mem, actions[j], program) {
        StillLoaded(t.mem, marked.state.mem, actions[j], program);
      }
      MarkKeepsSound(contents, marked.state, actions, program, id, offset, i + 1);
    }
  }

  lemma {:induction false} StillLoaded(m: Memory, m': Memory, action: LoadingAction, program: seq<Byte>)
    requires Loaded(m, action, program) && m'.bytes == m.bytes
    ensures Loaded(m', action, program)
  {
  }

  /** After a load that succeeded every segment is in memory, if they lie on pages of their own. */
  lemma {:induction false} LoadedAll(m: Memory, program: seq<Byte>, actions: seq<LoadingAction>, i: nat)
    requires |program| < TWO63 && i <= |actions| && forall j :: 0 <= j < |actions| ==> WellFormed(actions[j], program)
    requires AllApart(actions) && LoadFrom(m, program, actions, i).error.None?
    requires forall j :: 0 <= j < i ==> Loaded(m, actions[j], program)
    ensures forall j :: 0 <= j < |actions| ==> Loaded(LoadFrom(m, program, actions, i).mem, actions[j], program)
    decreases |actions| - i
  {
    hide Loaded, InitPages;
    if i < |actions| {
      var m' := LoadSegment(m, actions[i], program).mem;
      InitLoads(m, actions[i], program);
      forall j | 0 <= j < i ensures Loaded(m', actions[j], program) {
        InitKeepsLoaded(m, actions[i], actions[j], program);
      }
      LoadedAll(m', program, actions, i + 1);
    }
  }

  // ---------------------------------------------------------------- exactly when loading and marking do

  function LoadOp(action: LoadingAction, program: seq<Byte>): Op
    requires WellFormed(action, program)
  {
    OpInit(action.addr, action.size, action.flags, program[action.sourceStart..action.sourceEnd], action.offsetFromAddr)
  }

  /** If a segment meets a frozen page, no clean page before that one gains a flag. */
  predicate LoadTidy(m: Memory, program: seq<Byte>, actions: seq<LoadingAction>, i: nat)
    requires i <= |actions| && forall j :: 0 <= j < |actions| ==> WellFormed(actions[j], program)
    decreases |actions| - i
  {
    i == |actions|
    || (var op, o := LoadOp(actions[i], program), LoadSegment(m, actions[i], program);
        if StopsHalfway(m, op) then GainsNothing(m, op)
        else o.error.Some? || LoadTidy(o.mem, program, actions, i + 1))
  }

  lemma {:induction false} LoadExact(
      contents: Id -> Option<seq<Byte>>, pages: map<nat, Origin>, m: Memory, program: seq<Byte>, actions: seq<LoadingAction>, i: nat)
    requires |program| < TWO63 && i <= |actions| && forall j :: 0 <= j < |actions| ==> WellFormed(actions[j], program)
    requires Sound(contents, pages, m)
    ensures Sound(contents, pages, LoadFrom(m, program, actions, i).mem) <==> LoadTidy(m, program, actions, i)
    decreases |actions| - i
  {
    hide Sound, InitPages, StopsHalfway, GainsNothing;
    if i < |actions| {
      var a := actions[i];
      var op, o := LoadOp(a, program), LoadSegment(m, a, program);
      assert Apply(m, op).0 == o.mem;
      if StopsHalfway(m, op) {
        HalfwayExact(contents, pages, m, op);
        HalfwayFails(m, op);
      } else {
        InitKeepsSound(contents, pages, m, a.addr, a.size, a.flags, op.source, a.offsetFromAddr);
        if o.error.None? { LoadExact(contents, pages, o.mem, program, actions, i + 1); }
      }
    }
  }

  lemma {:induction false} HalfwayFails(m: Memory, op: Op)
    requires StopsHalfway(m, op)
    ensures InitPages(m, op.addr, op.size, op.f, op.source, op.offset).error.Some?
  {
  }

  /** Where the last of the marked segments from number `i` on that holds the page says it comes from. */
  function MarkedOrigin(size: nat, actions: seq<LoadingAction>, id: Id, offset: nat, i: nat, p: nat): Option<Origin>
    requires i <= |actions| && forall j :: 0 <= j < |actions| ==> Trackable(actions[j])
    decreases |actions| - i
  {
    if i == |actions| then None
    else
      assert Trackable(actions[i]);
      var start := SegmentStart(actions[i]);
      var first, count := FirstWhole(start), WholePages(start, SegmentLength(actions[i]));
      var here := if first <= p < first + count
                  then Some(Origin(id, offset + actions[i].sourceStart + Gap(start) + (p - first) * PAGE, NO_FLAGS)) else None;
      if count > 0 && first + count > size then here
      else
        var later := MarkedOrigin(size, actions, id, offset, i + 1, p);
        if later.Some? then later else here
  }

  /** A page of the state after marking: recorded clean at that origin, or as it was. */
  ghost predicate PageMarked(t: Tracked, t': Tracked, origin: Option<Origin>, p: nat)
    requires p < |t.mem.flags| == |t'.mem.flags|
  {
    if origin.Some? then
      && p in t'.pages && t'.mem.flags[p] == t.mem.flags[p].AndNot(DIRTY)
      && t'.pages[p] == origin.value.(flag := t'.mem.flags[p])
    else
      && t'.mem.flags[p] == t.mem.flags[p] && (p in t'.pages <==> p in t.pages)
      && (p in t.pages && p in t'.pages ==> t'.pages[p] == t.pages[p])
  }

  lemma {:induction false} TrackedPage(t: Tracked, start: U64, length: nat, id: Id, offset: nat, p: nat)
    requires p < |t.mem.flags|
    ensures var t', first, count := Track(t, start, length, id, offset).state, FirstWhole(start), WholePages(start, length);
            && t'.mem.bytes == t.mem.bytes && |t'.mem.flags| == |t.mem.flags|
            && (forall q :: q in t'.pages ==> q in t.pages || q < |t.mem.flags|)
            && PageMarked(t, t', if first <= p < first + count then Some(Origin(id, offset + Gap(start) + (p - first) * PAGE, NO_FLAGS))
                                 else None, p)
    ensures var first, count := FirstWhole(start), WholePages(start, length);
            Track(t, start, length, id, offset).error.Some? <==> count > 0 && first + count > |t.mem.flags|
  {
    hide FirstWhole, WholePages, Gap;
  }

  lemma {:induction false} MarkedTwice(t: Tracked, t': Tracked, t'': Tracked, here: Option<Origin>, later: Option<Origin>, p: nat)
    requires p < |t.mem.flags| == |t'.mem.flags| == |t''.mem.flags|
    requires PageMarked(t, t', here, p) && PageMarked(t', t'', later, p)
    ensures PageMarked(t, t'', if later.Some? then later else here, p)
  {
  }

  lemma {:induction false} MarkedPage(t: Tracked, actions: seq<LoadingAction>, id: Id, offset: nat, i: nat, p: nat)
    requires i <= |actions| && forall j :: 0 <= j < |actions| ==> Trackable(actions[j])
    requires p < |t.mem.flags|
    ensures var t' := MarkFrom(t, actions, id, offset, i).state;
            && t'.mem.bytes == t.mem.bytes && |t'.mem.flags| == |t.mem.flags|
            && (forall q :: q in t'.pages ==> q in t.pages || q < |t.mem.flags|)
            && PageMarked(t, t', MarkedOrigin(|t.mem.flags|, actions, id, offset, i, p), p)
    decreases |actions| - i
  {
    hide Track, FirstWhole, WholePages, Gap, SegmentStart, SegmentLength;
    if i < |actions| {
      assert Trackable(actions[i]);
      var start, length, at := SegmentStart(actions[i]), SegmentLength(actions[i]), offset + actions[i].sourceStart;
      TrackedPage(t, start, length, id, at, p);
      var marked := Track(t, start, length, id, at);
      if marked.error.None? {
        MarkedPage(marked.state, actions, id, offset, i + 1, p);
        var first, count := FirstWhole(start), WholePages(start, length);
        MarkedTwice(t, marked.state, MarkFrom(t, actions, id, offset, i).state,
                    if first <= p < first + count then Some(Origin(id, at + Gap(start) + (p - first) * PAGE, NO_FLAGS)) else None,
                    MarkedOrigin(|t.mem.flags|, actions, id, offset, i + 1, p), p);
      }
    }
  }

  /** Every page that marking records holds the slice it is recorded with. */
  ghost predicate MarkHolds(contents: Id -> Option<seq<Byte>>, m: Memory, actions: seq<LoadingAction>, id: Id, offset: nat)
    requires forall j :: 0 <= j < |actions| ==> Trackable(actions[j])
  {
    forall p :: 0 <= p < |m.flags| ==> HoldsOrigin(contents, m, MarkedOrigin(|m.flags|, actions, id, offset, 0, p), p)
  }

  ghost predicate HoldsOrigin(contents: Id -> Option<seq<Byte>>, m: Memory, origin: Option<Origin>, p: nat)
    requires p < |m.flags|
  {
    origin.Some? ==> FromSource(contents, origin.value, PageBytes(m, p))
  }

  /** Marking a program keeps the record sound if and only if that is so, whatever happened since it was loaded. */
  lemma {:induction false} MarkExact(contents: Id -> Option<seq<Byte>>, t: Tracked, actions: seq<LoadingAction>, id: Id, offset: nat)
    requires Sound(contents, t.pages, t.mem) && forall j :: 0 <= j < |actions| ==> Trackable(actions[j])
    ensures var t' := MarkFrom(t, actions, id, offset, 0).state;
            Sound(contents, t'.pages, t'.mem) <==> MarkHolds(contents, t.mem, actions, id, offset)
  {
    hide MarkedOrigin, MarkFrom, PageSound, PageMarked, HoldsOrigin;
    var t' := MarkFrom(t, actions, id, offset, 0).state;
    MarkKeepsShape(t, actions, id, offset, 0);
    forall p | 0 <= p < |t.mem.flags|
      ensures PageSound(contents, t'.pages, t'.mem, p)
              <==> HoldsOrigin(contents, t.mem, MarkedOrigin(|t.mem.flags|, actions, id, offset, 0, p), p)
    {
      MarkedPage(t, actions, id, offset, 0, p);
      MarkedSound(contents, t, t', MarkedOrigin(|t.mem.flags|, actions, id, offset, 0, p), p);
    }
  }

  lemma {:induction false} MarkKeepsShape(t: Tracked, actions: seq<LoadingAction>, id: Id, offset: nat, i: nat)
    requires i <= |actions| && forall j :: 0 <= j < |actions| ==> Trackable(actions[j])
    ensures var t' := MarkFrom(t, actions, id, offset, i).state;
            && t'.mem.bytes == t.mem.bytes && |t'.mem.flags| == |t.mem.flags|
            && (forall q :: q in t'.pages ==> q in t.pages || q < |t.mem.flags|)
    decreases |actions| - i
  {
    hide FirstWhole, WholePages, Gap, SegmentStart, SegmentLength;
    if i < |actions| {
      assert Trackable(actions[i]);
      var marked := Track(t, SegmentStart(actions[i]), SegmentLength(actions[i]), id, offset + actions[i].sourceStart);
      if marked.error.None? { MarkKeepsShape(marked.state, actions, id, offset, i + 1); }
    }
  }

  lemma {:induction false} MarkedSound(contents: Id -> Option<seq<Byte>>, t: Tracked, t': Tracked, origin: Option<Origin>, p: nat)
    requires p < |t.mem.flags| == |t'.mem.flags| && t'.mem.bytes == t.mem.bytes
    requires PageSound(contents, t.pages, t.mem, p) && PageMarked(t, t', origin, p)
    ensures PageSound(contents, t'.pages, t'.mem, p) <==> HoldsOrigin(contents, t.mem, origin, p)
  {
    hide PageBytes, Cut;
    SamePageBytes(t.mem, t'.mem, p);
  }

  // ---------------------------------------------------------------- where marking goes wrong

  /** A source of one page of ones, and the segment that loads it to address 0. */
  function Ones(id: Id): Option<seq<Byte>> { Some(Repeat(PAGE, 1)) }

  const ONE_PAGE := LoadingAction(0, PAGE, NO_FLAGS, 0, PAGE, 0)

  lemma {:induction false} LoadsOnes()
    ensures WellFormed(ONE_PAGE, Repeat(PAGE, 1)) && Trackable(ONE_PAGE)
    ensures var loaded := LoadSegment(Fresh(1), ONE_PAGE, Repeat(PAGE, 1));
            loaded.error.None? && loaded.mem.flags == [DIRTY] && |loaded.mem.bytes| == PAGE
  {
    assert PageOf(0) == 0 && PageOf(PAGE) == 1 && LastPage(0, PAGE) == 0;
  }

  lemma {:induction false} StoresTwo(m: Memory)
    requires m.flags == [DIRTY]
    ensures var o := StoreByte(m, 0, 1, 2); o.error.None? && o.mem.flags == [DIRTY] && PageBytes(o.mem, 0) != [] && PageBytes(o.mem, 0)[0] == 2
  {
    assert PageOf(0) == 0 && LastPage(0, 1) == 0;
    assert Blocked(m.flags, 0, 0, WRITABLE).None?;
  }

  /** A byte stored between loading and marking: the page is recorded as what it no longer is. */
  lemma {:induction false} WrittenBetween() returns (program: seq<Byte>, actions: seq<LoadingAction>, loaded: Memory, m: Memory)
    ensures |program| < TWO63 && forall j :: 0 <= j < |actions| ==> WellFormed(actions[j], program) && Trackable(actions[j])
    ensures LoadFrom(Fresh(1), program, actions, 0) == Outcome(loaded, None) && StoreByte(loaded, 0, 1, 2) == Outcome(m, None)
    ensures Sound(Ones, map[], m)
    ensures var t := MarkFrom(Tracked(map[], m), actions, 0, 0, 0).state; !Sound(Ones, t.pages, t.mem)
  {
    hide LoadSegment, StoreByte, MarkFrom, PageBytes, MarkHolds;
    LoadsOnes();
    program, actions := Repeat(PAGE, 1), [ONE_PAGE];
    loaded := LoadSegment(Fresh(1), ONE_PAGE, program).mem;
    StoresTwo(loaded);
    m := StoreByte(loaded, 0, 1, 2).mem;
    LoadOne(Fresh(1), program, actions);
    OnesMarked(m, actions);
    MarkExact(Ones, Tracked(map[], m), actions, 0, 0);
  }

  lemma {:induction false} LoadOne(m: Memory, program: seq<Byte>, actions: seq<LoadingAction>)
    requires |actions| == 1 && WellFormed(actions[0], program) && LoadSegment(m, actions[0], program).error.None?
    ensures LoadFrom(m, program, actions, 0) == LoadSegment(m, actions[0], program)
  {
    hide LoadSegment;
    var o := LoadSegment(m, actions[0], program);
    assert LoadFrom(o.mem, program, actions, 1) == Outcome(o.mem, None);
  }

  lemma {:induction false} OnesMarked(m: Memory, actions: seq<LoadingAction>)
    requires |m.flags| == 1 && PageBytes(m, 0) != [] && PageBytes(m, 0)[0] == 2 && actions == [ONE_PAGE] && Trackable(ONE_PAGE)
    ensures !MarkHolds(Ones, m, actions, 0, 0)
  {
    hide PageBytes, FirstWhole, WholePages, Gap;
    AlignedWhole(0, 1);
    var origin := MarkedOrigin(|m.flags|, actions, 0, 0, 0, 0);
    assert MarkedOrigin(|m.flags|, actions, 0, 0, 1, 0) == None;
    OtherPage(PageBytes(m, 0));
    assert !HoldsOrigin(Ones, m, origin, 0);
  }

  lemma {:induction false} OtherPage(bytes: seq<Byte>)
    requires bytes != [] && bytes[0] == 2
    ensures !FromSource(Ones, Origin(0, 0, NO_FLAGS), bytes)
  {
    if |bytes| <= PAGE { assert Slice(Repeat(PAGE, 1), 0, |bytes|)[0] == 1; }
  }
}
