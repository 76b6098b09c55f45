/**
 The memory side of the assembly core (src/machine/asm/mod.rs, and the address checks of
 src/machine/asm/execute_aarch64.S): lazily cleared frames, page flags, and the two
 shortcuts that let compiled code skip its checks.
 */
module AsmMemories {
  import opened Words
  import opened PagedMemory
  import opened LazyFrames

  // ---------------------------------------------------------------- what the operations do to plain memory

  /** `store_bytes` and `store_byte`: pages are checked and made dirty one by one, up to the first executable one. */
  function StoreRange(m: Memory, addr: U64, data: seq<Byte>): Outcome
    requires |data| < TWO64
  {
    if data == [] then Outcome(m, None)
    else
      var e := CheckNoOverflow(addr, |data|, |m.bytes|);
      if e.Some? then Outcome(m, e)
      else
        var first := PageOf(addr);
        var blocked := Blocked(m.flags, first, LastPage(addr, |data|), WRITABLE);
        if blocked.Some? then
          Outcome(m.(flags := Mark(m.flags, first, blocked.value - 1, DIRTY)), Some(WriteOnExecutable(blocked.value)))
        else Outcome(Put(m, addr, data), None)
  }

  /** `init_pages`: all pages are looked at before anything is changed. */
  function InitRange(m: Memory, addr: U64, size: U64, f: Flags, source: seq<Byte>, offset: U64): Outcome
  {
    var e := InitError(m, addr, size, offset);
    if e.Some? then Outcome(m, e)
    else
      var frozen := FirstFreezed(m.flags, PageOf(addr), PageOf(addr + size) - 1);
      if frozen.Some? then Outcome(m, Some(WriteOnFreezed(frozen.value)))
      else InitPages(m, addr, size, f, source, offset)
  }

  /** The checks of a store of at most eight bytes, in order: its page, then the next one if the store reaches it. */
  function StoreWordError(m: Memory, addr: U64, n: nat): Option<Error>
  {
    var page := PageOf(addr);
    if page >= |m.flags| then Some(OutOfBound(addr))
    else if m.flags[page].executable then Some(WriteOnExecutable(page))
    else if OffsetOf(addr) + n <= PAGE then None
    else if page + 1 >= |m.flags| then Some(OutOfBound(Wrap(addr + n)))
    else if m.flags[page + 1].executable then Some(WriteOnExecutable(page + 1))
    else None
  }

  function Dirtied(flags: seq<Flags>, page: nat): (r: seq<Flags>)
    requires page < |flags|
    ensures |r| == |flags|
  {
    flags[page := flags[page].Or(DIRTY)]
  }

  /** A failing check of the second page leaves the first one dirty. */
  function StoreWordFlags(m: Memory, addr: U64, n: nat): (r: seq<Flags>)
    ensures |r| == |m.flags|
  {
    var page := PageOf(addr);
    if page >= |m.flags| || m.flags[page].executable then m.flags
    else if OffsetOf(addr) + n <= PAGE || StoreWordError(m, addr, n).Some? then Dirtied(m.flags, page)
    else Dirtied(Dirtied(m.flags, page), page + 1)
  }

  function StoreWord(m: Memory, addr: U64, n: nat, value: U64): Outcome
    requires 0 < n <= 8
  {
    var e := StoreWordError(m, addr, n);
    if e.Some? then Outcome(m.(flags := StoreWordFlags(m, addr, n)), e)
    else StoreWordFits(m, addr, n); Outcome(Put(m, addr, ToLittleEndian(value, n)), None)
  }

  lemma {:induction false} StoreWordMarks(m: Memory, addr: U64, n: nat)
    requires 0 < n <= 8 && StoreWordError(m, addr, n).None?
    ensures StoreWordFlags(m, addr, n) == Mark(m.flags, PageOf(addr), LastPage(addr, n), DIRTY)
  {
  }

  lemma {:induction false} StoreWordFits(m: Memory, addr: U64, n: nat)
    requires 0 < n <= 8 && StoreWordError(m, addr, n).None?
    ensures InRange(m, addr, n)
    ensures LastPage(addr, n) == if OffsetOf(addr) + n <= PAGE then PageOf(addr) else PageOf(addr) + 1
  {
  }

  /** Where a range of at most eight bytes ends, and when it stays inside memory. */
  lemma {:induction false} WordPages(m: Memory, addr: U64, n: nat)
    requires 0 < n <= 8
    ensures LastPage(addr, n) == if OffsetOf(addr) + n <= PAGE then PageOf(addr) else PageOf(addr) + 1
    ensures addr < |m.bytes| <==> PageOf(addr) < |m.flags|
    ensures InRange(m, addr, n) <==> LastPage(addr, n) < |m.flags|
  {
  }

  function FetchWord(m: Memory, addr: U64, n: nat): Result<nat>
    requires 0 < n <= 8
  {
    var page := PageOf(addr);
    if page >= |m.flags| then Err(OutOfBound(addr))
    else if !m.flags[page].executable then Err(WriteOnExecutable(page))
    else if OffsetOf(addr) + n > PAGE && page + 1 >= |m.flags| then Err(OutOfBound(Wrap(addr + n)))
    else if OffsetOf(addr) + n > PAGE && !m.flags[page + 1].executable then Err(WriteOnExecutable(page + 1))
    else Load(m, addr, n)
  }

  // ---------------------------------------------------------------- filling a range in pieces

  /** The first `done` bytes of the image are in place and nothing outside the whole range has changed. */
  ghost predicate Filled(m0: Memory, m: Memory, addr: nat, size: nat, image: seq<Byte>, done: nat) {
    && done <= size == |image| && addr + size <= |m0.bytes| && |m.bytes| == |m0.bytes| && m.lr == m0.lr
    && m.flags == (if done == 0 then m0.flags else Mark(m0.flags, PageOf(addr), LastPage(addr, done), DIRTY))
    && SameOutside(m0.bytes, m.bytes, addr, addr + size)
    && Slice(m.bytes, addr, done) == image[..done]
  }

  /** An unchecked store: the data is in place, and at most the rest of its last page shows stale bytes. */
  ghost predicate Stored(m: Memory, m': Memory, addr: nat, data: seq<Byte>) {
    && data != [] && addr + |data| <= |m.bytes| && |m'.bytes| == |m.bytes| && m'.lr == m.lr
    && m'.flags == Mark(m.flags, PageOf(addr), LastPage(addr, |data|), DIRTY)
    && SameOutside(m.bytes, m'.bytes, addr, PageEnd(addr + |data|))
    && Slice(m'.bytes, addr, |data|) == data
  }

  predicate PageAligned(addr: nat) { addr % PAGE == 0 }

  lemma {:induction false} PageEndInside(end: nat, limit: nat)
    requires 0 < end <= limit && limit % PAGE == 0
    ensures end <= PageEnd(end) <= limit
  {
  }

  lemma {:induction false} MarkSum(flags: seq<Flags>, addr: nat, m: nat, n: nat)
    requires m > 0 && n > 0
    ensures Mark(Mark(flags, PageOf(addr), LastPage(addr, m), DIRTY), PageOf(addr + m), LastPage(addr + m, n), DIRTY)
            == Mark(flags, PageOf(addr), LastPage(addr, m + n), DIRTY)
  {
  }

  /** A store that may spoil the rest of its last page still only adds to a page-aligned range. */
  lemma {:induction false} FillMore(m0: Memory, m: Memory, m': Memory, addr: nat, size: nat, image: seq<Byte>, done: nat, data: seq<Byte>)
    requires Filled(m0, m, addr, size, image, done) && PageAligned(addr + size)
    requires data != [] && PieceAt(image, done, data) && Stored(m, m', addr + done, data)
    ensures Filled(m0, m', addr, size, image, done + |data|)
  {
    hide Mark, PageOf, LastPage, PageEnd;
    var more := |data|;
    PageEndInside(addr + done + more, addr + size);
    if done > 0 { MarkSum(m0.flags, addr, done, more); }
    BytesMore(m.bytes, m'.bytes, addr, image, done, more, PageEnd(addr + done + more));
  }

  lemma {:induction false} BytesMore(b: seq<Byte>, b': seq<Byte>, addr: nat, image: seq<Byte>, done: nat, more: nat, end: nat)
    requires done + more <= |image| && addr + |image| <= |b|
    requires SameOutside(b, b', addr + done, end) && Slice(b, addr, done) == image[..done]
    requires Slice(b', addr + done, more) == image[done..done + more]
    ensures Slice(b', addr, done + more) == image[..done + more]
  {
    SliceSum(b', addr, done, more);
    assert Slice(b', addr, done) == Slice(b, addr, done);
    assert image[..done + more] == image[..done] + image[done..done + more];
  }

  /** Copying into a range after its frames and pages were marked. */
  lemma {:induction false} StoredAfter(m: Memory, prepared: seq<Byte>, m': Memory, addr: nat, data: seq<Byte>)
    requires data != [] && addr + |data| <= |m.bytes| && m'.lr == m.lr && |m'.bytes| == |m.bytes|
    requires SameOutside(m.bytes, prepared, addr, PageEnd(addr + |data|))
    requires m'.bytes == Write(prepared, addr, data)
    requires m'.flags == Mark(m.flags, PageOf(addr), LastPage(addr, |data|), DIRTY)
    ensures Stored(m, m', addr, data)
  {
    hide Mark, PageOf;
    EndOfPage(addr + |data|);
    assert Slice(m'.bytes, addr, |data|) == data;
  }

  lemma {:induction false} EndOfPage(end: nat)
    requires end > 0
    ensures end <= PageEnd(end)
  {
    AddressParts(end - 1);
  }

  lemma {:induction false} FilledRange(m0: Memory, m: Memory, addr: nat, size: nat, image: seq<Byte>, done: nat)
    requires Filled(m0, m, addr, size, image, done)
    ensures addr + size <= |m.bytes| == |m0.bytes| && done <= size == |image|
  {
  }

  lemma {:induction false} FillStart(m0: Memory, addr: nat, size: nat, image: seq<Byte>)
    requires addr + size <= |m0.bytes| && |image| == size
    ensures Filled(m0, m0, addr, size, image, 0)
  {
  }

  lemma {:induction false} FillAll(m0: Memory, m: Memory, addr: nat, size: nat, image: seq<Byte>)
    requires Filled(m0, m, addr, size, image, size)
    ensures m == if size == 0 then m0 else Put(m0, addr, image)
  {
  }

  class AsmMemory {
    const memory: array<Byte>
    const flags: array<Flags>
    const frames: array<Byte>
    var lastReadFrame: U64
    var lastWritePage: U64
    var lr: U64

    ghost predicate Valid()
    {
      memory.Length == flags.Length * PAGE == frames.Length * FRAME < TWO63 && memory != frames
    }

    ghost function Bytes(): (r: seq<Byte>)
      requires Valid()
      reads memory, frames
      ensures |r| == memory.Length
    {
      Lazy(memory[..], frames[..])
    }

    /** The memory a program observes. */
    ghost function Memory(): (m: Memory)
      requires Valid()
      reads this, memory, flags, frames
      ensures |m.bytes| == memory.Length && |m.flags| == flags.Length
    {
      Mem(Bytes(), flags[..], lr)
    }

    ghost predicate ReadShortcut()
      reads this, frames
    {
      lastReadFrame != U64_MAX ==> lastReadFrame < frames.Length && frames[lastReadFrame] != 0
    }

    /** What the two shortcut fields promise to compiled code. */
    ghost predicate Shortcuts()
      requires Valid()
      reads this, flags, frames
    {
      && ReadShortcut()
      && (lastWritePage != U64_MAX ==>
            && lastWritePage < flags.Length
            && !flags[lastWritePage].executable && flags[lastWritePage].dirty
            && FrameOfPage(lastWritePage) < frames.Length && frames[FrameOfPage(lastWritePage)] != 0)
    }

    /** Memory comes from the allocator with arbitrary contents; flags and frames are zero. */
    constructor (frameCount: nat)
      requires 0 < frameCount * FRAME < TWO63
      ensures Valid() && Shortcuts() && fresh(memory) && fresh(flags) && fresh(frames)
      ensures Memory() == Fresh(frameCount * FRAME_PAGES)
    {
      memory := new Byte[frameCount * FRAME];
      flags := new Flags[frameCount * FRAME_PAGES](i => NO_FLAGS);
      frames := new Byte[frameCount](i => 0);
      lastReadFrame, lastWritePage, lr := U64_MAX, U64_MAX, U64_MAX;
      new;
      AllUncleared(memory[..], frames[..]);
    }

    method Reset()
      requires Valid()
      modifies this, flags, frames
      ensures Valid() && Shortcuts() && Memory() == Fresh(flags.Length)
    {
      lr, lastReadFrame, lastWritePage := U64_MAX, U64_MAX, U64_MAX;
      forall p | 0 <= p < flags.Length { flags[p] := NO_FLAGS; }
      forall f | 0 <= f < frames.Length { frames[f] := 0; }
      AllUncleared(memory[..], frames[..]);
    }

    // ---------------------------------------------------------------- clearing frames

    method InitedMemory(frame: nat)
      requires Valid() && frame < frames.Length
      modifies memory
      ensures memory[..] == ZeroFrame(old(memory[..]), frame)
    {
      forall i | 0 <= i < FRAME { memory[frame * FRAME + i] := 0; }
      assert memory[..] == ZeroFrame(old(memory[..]), frame);
    }

    /** Clears the frame if it has not been; `mark` is the byte left behind. */
    method ClearFrame(frame: nat, mark: Byte)
      requires Valid() && frame < frames.Length && mark != 0
      modifies memory, frames
      ensures Valid() && Bytes() == old(Bytes())
      ensures Grown(old(frames[..]), frames[..]) && frames[frame] != 0
      ensures Lazily(memory[..], frames[..]) == Clear(Lazily(old(memory[..]), old(frames[..])), frame, mark)
    {
      if frames[frame] == 0 {
        ClearingIsInvisible(memory[..], frames[..], frame, mark);
        InitedMemory(frame);
        frames[frame] := mark;
        assert frames[..] == old(frames[..])[frame := mark];
      }
    }

    method CheckMemory(page: nat)
      requires Valid() && page < flags.Length
      modifies memory, frames
      ensures Valid() && Bytes() == old(Bytes())
      ensures Grown(old(frames[..]), frames[..])
      ensures FrameOfPage(page) < frames.Length && frames[FrameOfPage(page)] != 0
      ensures Lazily(memory[..], frames[..]) == Clear(Lazily(old(memory[..]), old(frames[..])), FrameOfPage(page), 1)
    {
      ClearFrame(FrameOfPage(page), 1);
    }

    // ---------------------------------------------------------------- flags

    method FetchFlag(page: U64) returns (r: Result<Flags>)
      requires Valid()
      ensures r == PagedMemory.FetchFlag(Memory(), page)
    {
      return if page < flags.Length then Ok(flags[page]) else Err(OutOfBound(Wrap(page * PAGE)));
    }

    method SetFlag(page: U64, f: Flags) returns (error: Option<Error>)
      requires Valid()
      modifies this`lastWritePage, flags
      ensures Outcome(Memory(), error) == PagedMemory.SetFlag(old(Memory()), page, f)
      ensures lastWritePage == if error.None? then U64_MAX else old(lastWritePage)
    {
      if page >= flags.Length {
        return Some(OutOfBound(Wrap(page * PAGE)));
      }
      flags[page] := flags[page].Or(f);
      lastWritePage := U64_MAX;
      return None;
    }

    method ClearFlag(page: U64, f: Flags) returns (error: Option<Error>)
      requires Valid()
      modifies this`lastWritePage, flags
      ensures Outcome(Memory(), error) == PagedMemory.ClearFlag(old(Memory()), page, f)
      ensures lastWritePage == if error.None? then U64_MAX else old(lastWritePage)
    {
      if page >= flags.Length {
        return Some(OutOfBound(Wrap(page * PAGE)));
      }
      flags[page] := flags[page].AndNot(f);
      lastWritePage := U64_MAX;
      return None;
    }

    // ---------------------------------------------------------------- filling pages

    /** Marks the frames and pages of a range dirty before it is written without checks. */
    method PrepareMemory(addr: U64, size: U64) returns (error: Option<Error>)
      requires Valid() && size > 0
      modifies this`lastWritePage, memory, flags, frames
      ensures Valid() && error == CheckNoOverflow(addr, size, memory.Length) && Grown(old(frames[..]), frames[..])
      ensures error.Some? ==> Memory() == old(Memory()) && lastWritePage == old(lastWritePage)
      ensures error.None? ==>
                && lastWritePage == U64_MAX
                && flags[..] == Mark(old(flags[..]), PageOf(addr), LastPage(addr, size), DIRTY)
                && SameOutside(old(Bytes()), Bytes(), addr, PageEnd(addr + size))
                && Cleared(frames[..], addr, addr + size)
                && var edges := LazyFrames.ClearEdges(Lazily(old(memory[..]), old(frames[..])), addr, addr + size);
                   memory[..] == edges.memory && frames[..] == MarkFrames(edges.frames, addr, addr + size)
    {
      hide Mark, Lazy, Cleared, SameOutside, LazyFrames.ClearEdges, MarkFrames;
      error := CheckNoOverflow(addr, size, memory.Length);
      if error.Some? {
        return;
      }
      ClearEdges(addr, addr + size);
      MarkRange(addr, addr + size);
      return None;
    }

    /** Clears the first and the last frame of a range where the range does not cover them. */
    method ClearEdges(addr: U64, end: U64)
      requires Valid() && addr < end <= memory.Length
      modifies memory, frames
      ensures Valid() && Bytes() == old(Bytes()) && Grown(old(frames[..]), frames[..])
      ensures FrameOf(addr) < frames.Length && FrameOf(end - 1) < frames.Length
      ensures FrameOf(addr) * FRAME < addr ==> frames[FrameOf(addr)] != 0
      ensures PageEnd(end) < (FrameOf(end - 1) + 1) * FRAME ==> frames[FrameOf(end - 1)] != 0
      ensures Lazily(memory[..], frames[..]) == LazyFrames.ClearEdges(Lazily(old(memory[..]), old(frames[..])), addr, end)
    {
      hide Clear, Lazy;
      FrameExists(memory[..], frames[..], addr);
      FrameExists(memory[..], frames[..], end - 1);
      FrameViaPage(addr);
      FrameViaPage(end - 1);
      if FrameOf(addr) * FRAME < addr {
        CheckMemory(PageOf(addr));
      }
      if PageEnd(end) < (FrameOf(end - 1) + 1) * FRAME {
        CheckMemory(PageOf(end - 1));
      }
    }

    method MarkRange(addr: U64, end: U64)
      requires Valid() && addr < end <= memory.Length
      requires FrameOf(addr) < frames.Length && FrameOf(end - 1) < frames.Length
      requires FrameOf(addr) * FRAME < addr ==> frames[FrameOf(addr)] != 0
      requires PageEnd(end) < (FrameOf(end - 1) + 1) * FRAME ==> frames[FrameOf(end - 1)] != 0
      modifies this`lastWritePage, flags, frames
      ensures Valid() && lastWritePage == U64_MAX
      ensures flags[..] == Mark(old(flags[..]), PageOf(addr), PageOf(end - 1), DIRTY)
      ensures SameOutside(old(Bytes()), Bytes(), addr, PageEnd(end))
      ensures Grown(old(frames[..]), frames[..]) && Cleared(frames[..], addr, end)
      ensures frames[..] == MarkFrames(old(frames[..]), addr, end)
    {
      hide Mark, Lazy, Cleared, SameOutside, MarkFrames;
      ghost var frames0, flags0 := frames[..], flags[..];
      var first: nat, last: nat := PageOf(addr), PageOf(end - 1);
      MarkNone(flags0, first, first - 1, DIRTY);
      var page := first;
      while page <= last
        invariant first <= page <= last + 1
        invariant flags[..] == Mark(flags0, first, page - 1, DIRTY)
        invariant MarkedUpTo(frames0, frames[..], first, page)
        invariant page > first ==> lastWritePage == U64_MAX
      {
        MarkOne(flags0, first, page, DIRTY);
        MarkedNext(frames0, frames[..], first, page);
        var was := frames[..];
        frames[FrameOfPage(page)] := 1;
        assert frames[..] == was[FrameOfPage(page) := 1];
        var e := SetFlag(page, DIRTY);
        page := page + 1;
      }
      MarkingIsInvisibleOutside(memory[..], frames0, frames[..], addr, end);
      MarkedAll(frames0, frames[..], addr, end);
    }
  
    /** Copies into a range whose frames are cleared. */
    method Copy(addr: nat, value: seq<Byte>)
      requires Valid() && addr + |value| <= memory.Length && Cleared(frames[..], addr, addr + |value|)
      modifies memory
      ensures Bytes() == PagedMemory.Write(old(Bytes()), addr, value)
      ensures memory[..] == PagedMemory.Write(old(memory[..]), addr, value)
    {
      hide Lazy, Cleared;
      LazyWrite(memory[..], frames[..], addr, value);
      ghost var was, cleared := memory[..], frames[..];
      forall i | 0 <= i < |value| { memory[addr + i] := value[i]; }
      assert memory[..] == PagedMemory.Write(was, addr, value) && frames[..] == cleared;
    }

    method FastStoreBytes(addr: U64, value: seq<Byte>) returns (error: Option<Error>)
      requires Valid() && |value| < TWO63
      modifies this`lastWritePage, memory, flags, frames
      ensures Valid() && Grown(old(frames[..]), frames[..])
      ensures error == if value == [] then None else CheckNoOverflow(addr, |value|, memory.Length)
      ensures value == [] || error.Some? ==> Memory() == old(Memory()) && lastWritePage == old(lastWritePage)
      ensures value != [] && error.None? ==>
                && lastWritePage == U64_MAX && Stored(old(Memory()), Memory(), addr, value)
                && Bytes() == FastStored(Lazily(old(memory[..]), old(frames[..])), addr, value)
                && (NothingStale(old(frames[..]), addr, addr + |value|) ==> Memory() == Put(old(Memory()), addr, value))
    {
      hide PagedMemory.Write, Mark, Lazy, Cleared, NothingStale, LazyFrames.ClearEdges, MarkFrames;
      if value == [] {
        return None;
      }
      error := PrepareMemory(addr, |value|);
      if error.Some? {
        return;
      }
      ghost var prepared := Bytes();
      Copy(addr, value);
      StoredAfter(old(Memory()), prepared, Memory(), addr, value);
      FastStoreExact(Lazily(old(memory[..]), old(frames[..])), addr, value);
    }

    method FastStoreByte(addr: U64, size: U64, value: Byte) returns (error: Option<Error>)
      requires Valid()
      modifies this`lastWritePage, memory, flags, frames
      ensures Valid() && Grown(old(frames[..]), frames[..])
      ensures error == if size == 0 then None else CheckNoOverflow(addr, size, memory.Length)
      ensures size == 0 || error.Some? ==> Memory() == old(Memory()) && lastWritePage == old(lastWritePage)
      ensures size > 0 && error.None? ==>
                && lastWritePage == U64_MAX && Stored(old(Memory()), Memory(), addr, Repeat(size, value))
                && Bytes() == FastStored(Lazily(old(memory[..]), old(frames[..])), addr, Repeat(size, value))
                && (NothingStale(old(frames[..]), addr, addr + size) ==> Memory() == Put(old(Memory()), addr, Repeat(size, value)))
    {
      hide PagedMemory.Write, Mark, Lazy, Cleared, NothingStale, LazyFrames.ClearEdges, MarkFrames;
      if size == 0 {
        return None;
      }
      error := PrepareMemory(addr, size);
      if error.Some? {
        return;
      }
      ghost var prepared := Bytes();
      Copy(addr, Repeat(size, value));
      StoredAfter(old(Memory()), prepared, Memory(), addr, Repeat(size, value));
      FastStoreExact(Lazily(old(memory[..]), old(frames[..])), addr, Repeat(size, value));
    }

    /** One piece of an image: `done` bytes of it, then `more` zeros. */
    method FillZeros(addr: U64, done: U64, more: U64, ghost m0: Memory, ghost size: nat, ghost image: seq<Byte>)
      requires Valid() && Filled(m0, Memory(), addr, size, image, done) && PageAligned(addr + size)
      requires PieceAt(image, done, Repeat(more, 0))
      modifies this`lastWritePage, memory, flags, frames
      ensures Valid() && Filled(m0, Memory(), addr, size, image, done + more)
      ensures lastWritePage == if more == 0 then old(lastWritePage) else U64_MAX
      ensures Grown(old(frames[..]), frames[..])
    {
      hide CheckNoOverflow, Filled, Stored, Lazy, PageAligned, PieceAt, Repeat, this.Memory, Grown;
      FilledRange(m0, Memory(), addr, size, image, done);
      PieceFits(image, done, Repeat(more, 0));
      CheckNoOverflowExact(Memory(), addr + done, more);
      ghost var m := Memory();
      var e := FastStoreByte(addr + done, more, 0);
      if more > 0 { FillMore(m0, m, Memory(), addr, size, image, done, Repeat(more, 0)); }
    }

    /** One piece of an image: `done` bytes of it, then data. */
    method FillData(addr: U64, done: U64, data: seq<Byte>, ghost m0: Memory, ghost size: nat, ghost image: seq<Byte>)
      requires Valid() && Filled(m0, Memory(), addr, size, image, done) && PageAligned(addr + size)
      requires data != [] && PieceAt(image, done, data)
      modifies this`lastWritePage, memory, flags, frames
      ensures Valid() && lastWritePage == U64_MAX && Filled(m0, Memory(), addr, size, image, done + |data|)
      ensures Grown(old(frames[..]), frames[..])
    {
      hide CheckNoOverflow, Filled, Stored, Lazy, PageAligned, PieceAt, Repeat, this.Memory, Grown;
      FilledRange(m0, Memory(), addr, size, image, done);
      PieceFits(image, done, data);
      CheckNoOverflowExact(Memory(), addr + done, |data|);
      ghost var m := Memory();
      var e := FastStoreBytes(addr + done, data);
      FillMore(m0, m, Memory(), addr, size, image, done, data);
    }

    method FillPageData(addr: U64, size: U64, source: seq<Byte>, offset: U64) returns (error: Option<Error>)
      requires Valid() && |source| < TWO63 && addr + size <= memory.Length && PageAligned(addr + size)
      modifies this`lastWritePage, memory, flags, frames
      ensures Valid() && error.None? && Grown(old(frames[..]), frames[..])
      ensures Memory() == if size == 0 then old(Memory()) else Put(old(Memory()), addr, Image(size, source, offset))
      ensures lastWritePage == if size == 0 then old(lastWritePage) else U64_MAX
    {
      hide Put, Image, Lazy, Filled, PageAligned, PieceAt, Repeat, this.Memory;
      ghost var m0, image := Memory(), Image(size, source, offset);
      FillStart(m0, addr, size, image);
      ImagePieces(size, source, offset);
      var written := 0;
      if offset > 0 {
        var realSize := if size < offset then size else offset;
        FillZeros(addr, 0, realSize, m0, size, image);
        written := written + realSize;
      }
      var realSize := if size - written < |source| then size - written else |source|;
      if realSize > 0 {
        FillData(addr, written, source[..realSize], m0, size, image);
        written := written + realSize;
      }
      if written < size {
        FillZeros(addr, written, size - written, m0, size, image);
      }
      FillAll(m0, Memory(), addr, size, image);
      return None;
    }

    method SetFlags(first: nat, last: int, f: Flags)
      requires Valid() && -1 <= last < flags.Length && first <= last + 1
      modifies this`lastWritePage, flags
      ensures flags[..] == Mark(old(flags[..]), first, last, f)
      ensures lastWritePage == old(lastWritePage) || lastWritePage == U64_MAX
    {
      hide Mark;
      ghost var flags0 := flags[..];
      MarkNone(flags0, first, first - 1, f);
      var page := first;
      while page <= last
        invariant first <= page <= last + 1
        invariant flags[..] == Mark(flags0, first, page - 1, f)
        invariant lastWritePage == old(lastWritePage) || lastWritePage == U64_MAX
      {
        MarkOne(flags0, first, page, f);
        var e := SetFlag(page, f);
        page := page + 1;
      }
    }

    method FindFreezed(first: nat, last: int) returns (r: Option<nat>)
      requires Valid() && -1 <= last < flags.Length
      ensures r == FirstFreezed(flags[..], first, last)
    {
      var page := first;
      while page <= last
        invariant first <= page && FirstFreezed(flags[..], first, last) == FirstFreezed(flags[..], page, last)
      {
        if flags[page].freezed {
          return Some(page);
        }
        page := page + 1;
      }
      return None;
    }

    method InitPages(addr: U64, size: U64, f: Flags, source: seq<Byte>, offset: U64) returns (error: Option<Error>)
      requires Valid() && Shortcuts() && |source| < TWO63
      modifies this`lastReadFrame, this`lastWritePage, memory, flags, frames
      ensures Valid() && Shortcuts()
      ensures Outcome(Memory(), error) == InitRange(old(Memory()), addr, size, f, source, offset)
    {
      hide Put, Image, Mark, Lazy;
      if addr % PAGE != 0 {
        return Some(UnalignedPage(addr));
      }
      if size % PAGE != 0 {
        return Some(UnalignedPage(Wrap(addr + size)));
      }
      if addr > memory.Length {
        return Some(OutOfBound(addr));
      }
      if size > memory.Length || addr + size > memory.Length {
        return Some(OutOfBound(Wrap(addr + size)));
      }
      if offset > size {
        return Some(OutOfExternalData(offset));
      }
      var frozen := FindFreezed(PageOf(addr), PageOf(addr + size) - 1);
      if frozen.Some? {
        return Some(WriteOnFreezed(frozen.value));
      }
      ghost var m0 := Memory();
      error := FillPageData(addr, size, source, offset);
      SetFlags(PageOf(addr), PageOf(addr + size) - 1, f);
      FlagsAfterFilling(m0, addr, size, f, Image(size, source, offset));
      lastReadFrame, lastWritePage := U64_MAX, U64_MAX;
    }
  
    // ---------------------------------------------------------------- host stores and loads

    /** Checks and dirties one page of a store. */
    method OpenPage(page: nat) returns (error: Option<Error>)
      requires Valid() && Shortcuts() && page < flags.Length
      modifies this`lastWritePage, memory, flags, frames
      ensures Valid() && Shortcuts() && Bytes() == old(Bytes()) && Grown(old(frames[..]), frames[..])
      ensures error == if old(flags[page].executable) then Some(WriteOnExecutable(page)) else None
      ensures flags[..] == if error.Some? then old(flags[..]) else Dirtied(old(flags[..]), page)
      ensures error.None? ==> FrameOfPage(page) < frames.Length && frames[FrameOfPage(page)] != 0
    {
      hide Clear, Lazy;
      if flags[page].executable {
        return Some(WriteOnExecutable(page));
      }
      CheckMemory(page);
      error := SetFlag(page, DIRTY);
    }

    method OpenPages(addr: nat, size: nat) returns (error: Option<Error>)
      requires Valid() && Shortcuts() && size > 0 && addr + size <= memory.Length
      modifies this`lastWritePage, memory, flags, frames
      ensures Valid() && Shortcuts() && Bytes() == old(Bytes())
      ensures var first, last := PageOf(addr), LastPage(addr, size);
              var blocked := Blocked(old(flags[..]), first, last, WRITABLE);
              && error == (if blocked.Some? then Some(WriteOnExecutable(blocked.value)) else None)
              && flags[..] == Mark(old(flags[..]), first, if blocked.Some? then blocked.value - 1 else last, DIRTY)
      ensures error.None? ==> Cleared(frames[..], addr, addr + size)
    {
      hide Lazy, Mark, Cleared, Shortcuts, PagesCleared, Grown;
      ghost var flags0 := flags[..];
      var first: nat, last: nat := PageOf(addr), LastPage(addr, size);
      MarkNone(flags0, first, first - 1, DIRTY);
      NoPages(frames[..], first);
      var page := first;
      while page <= last
        invariant first <= page <= last + 1 && Valid() && Shortcuts() && Bytes() == old(Bytes())
        invariant flags[..] == Mark(flags0, first, page - 1, DIRTY)
        invariant Blocked(flags0, first, last, WRITABLE) == Blocked(flags0, page, last, WRITABLE)
        invariant PagesCleared(frames[..], first, page)
      {
        MarkOne(flags0, first, page, DIRTY);
        ghost var was := frames[..];
        error := OpenPage(page);
        if error.Some? {
          return;
        }
        PagesClearedNext(was, frames[..], first, page);
        page := page + 1;
      }
      ClearedPages(memory[..], frames[..], addr, addr + size);
      return None;
    }

    method StoreBytes(addr: U64, value: seq<Byte>) returns (error: Option<Error>)
      requires Valid() && Shortcuts() && |value| < TWO63
      modifies this`lastWritePage, memory, flags, frames
      ensures Valid() && Shortcuts() && Outcome(Memory(), error) == StoreRange(old(Memory()), addr, value)
    {
      hide Lazy, Mark, Cleared, PagedMemory.Write, Shortcuts;
      if value == [] {
        return None;
      }
      error := CheckNoOverflow(addr, |value|, memory.Length);
      if error.None? {
        error := OpenPages(addr, |value|);
        if error.None? {
          Copy(addr, value);
        }
      }
    }

    method StoreByte(addr: U64, size: U64, value: Byte) returns (error: Option<Error>)
      requires Valid() && Shortcuts()
      modifies this`lastWritePage, memory, flags, frames
      ensures Valid() && Shortcuts()
      ensures Outcome(Memory(), error) == StoreRange(old(Memory()), addr, Repeat(size, value))
    {
      hide Lazy, Mark, Cleared, PagedMemory.Write, Shortcuts;
      if size == 0 {
        return None;
      }
      error := CheckNoOverflow(addr, size, memory.Length);
      if error.None? {
        error := OpenPages(addr, size);
        if error.None? {
          Copy(addr, Repeat(size, value));
        }
      }
    }

    method LoadBytes(addr: U64, size: U64) returns (r: Result<seq<Byte>>)
      requires Valid() && Shortcuts()
      modifies memory, frames
      ensures Valid() && Shortcuts() && Memory() == old(Memory())
      ensures r == PagedMemory.LoadBytes(Memory(), addr, size)
    {
      hide Clear, Lazy, Cleared;
      if size == 0 {
        return Ok([]);
      }
      var error := CheckNoOverflow(addr, size, memory.Length);
      if error.Some? {
        return Err(error.value);
      }
      var first: nat, last: nat := PageOf(addr), LastPage(addr, size);
      for page := first to last + 1
        invariant Valid() && Bytes() == old(Bytes()) && Grown(old(frames[..]), frames[..])
        invariant PagesCleared(frames[..], first, page)
      {
        ghost var was := frames[..];
        CheckMemory(page);
        PagesClearedNext(was, frames[..], first, page);
      }
      ClearedPages(memory[..], frames[..], addr, addr + size);
      LazySlice(memory[..], frames[..], addr, size);
      return Ok(Slice(memory[..], addr, size));
    }
  
    // ---------------------------------------------------------------- host words

    /** The second page of a word, and whether there is one. */
    static lemma {:induction false} ClearedWord(memory: seq<Byte>, frames: seq<Byte>, m: Memory, addr: U64, n: nat)
      requires Shaped(memory, frames) && |m.bytes| == |memory| && 0 < n <= 8 && InRange(m, addr, n)
      requires FrameOfPage(PageOf(addr)) < |frames| && frames[FrameOfPage(PageOf(addr))] != 0
      requires OffsetOf(addr) + n > PAGE ==> FrameOfPage(PageOf(addr) + 1) < |frames| && frames[FrameOfPage(PageOf(addr) + 1)] != 0
      ensures Cleared(frames, addr, addr + n)
    {
    }

    method CheckMemoryInited(addr: U64, n: nat) returns (error: Option<Error>)
      requires Valid() && 0 < n <= 8
      modifies memory, frames
      ensures Valid() && Bytes() == old(Bytes()) && Grown(old(frames[..]), frames[..])
      ensures error == CheckNoOverflow(addr, n, memory.Length)
      ensures error.None? ==> Cleared(frames[..], addr, addr + n)
    {
      hide Clear, Lazy, Cleared;
      WordPages(Memory(), addr, n);
      var page := PageOf(addr);
      if page >= flags.Length {
        return Some(OutOfBound(addr));
      }
      CheckMemory(page);
      if OffsetOf(addr) + n > PAGE {
        if page + 1 >= flags.Length {
          return Some(OutOfBound(Wrap(addr + n)));
        }
        CheckMemory(page + 1);
      }
      ClearedWord(memory[..], frames[..], Memory(), addr, n);
      return None;
    }

    method CheckMemoryWritable(addr: U64, n: nat) returns (error: Option<Error>)
      requires Valid() && Shortcuts() && 0 < n <= 8
      modifies this`lastWritePage, memory, flags, frames
      ensures Valid() && Shortcuts() && Bytes() == old(Bytes())
      ensures error == StoreWordError(old(Memory()), addr, n)
      ensures flags[..] == StoreWordFlags(old(Memory()), addr, n)
      ensures error.None? ==> InRange(Memory(), addr, n) && Cleared(frames[..], addr, addr + n)
    {
      hide Lazy, Cleared, Shortcuts, PageOf, OffsetOf, LastPage;
      WordPages(Memory(), addr, n);
      var page := PageOf(addr);
      if page >= flags.Length {
        return Some(OutOfBound(addr));
      }
      error := OpenPage(page);
      if error.Some? {
        return;
      }
      if OffsetOf(addr) + n > PAGE {
        if page + 1 >= flags.Length {
          return Some(OutOfBound(Wrap(addr + n)));
        }
        error := OpenPage(page + 1);
        if error.Some? {
          return;
        }
      }
      ClearedWord(memory[..], frames[..], Memory(), addr, n);
      return None;
    }

    method Load(addr: U64, n: nat) returns (r: Result<nat>)
      requires Valid() && Shortcuts() && 0 < n <= 8
      modifies memory, frames
      ensures Valid() && Shortcuts() && Memory() == old(Memory())
      ensures r == PagedMemory.Load(Memory(), addr, n)
    {
      hide Lazy, Cleared;
      var error := CheckMemoryInited(addr, n);
      if error.Some? {
        return Err(error.value);
      }
      LazySlice(memory[..], frames[..], addr, n);
      return Ok(LittleEndian(Slice(memory[..], addr, n)));
    }

    method Store(addr: U64, n: nat, value: U64) returns (error: Option<Error>)
      requires Valid() && Shortcuts() && 0 < n <= 8
      modifies this`lastWritePage, memory, flags, frames
      ensures Valid() && Shortcuts() && Outcome(Memory(), error) == StoreWord(old(Memory()), addr, n, value)
    {
      hide Lazy, Cleared, Shortcuts, Mark, PagedMemory.Write;
      error := CheckMemoryWritable(addr, n);
      if error.None? {
        StoreWordMarks(old(Memory()), addr, n);
        Copy(addr, ToLittleEndian(value, n));
      }
    }

    method ExecuteLoad(addr: U64, n: nat) returns (r: Result<nat>)
      requires Valid() && Shortcuts() && 0 < n <= 8
      modifies memory, frames
      ensures Valid() && Shortcuts() && Memory() == old(Memory())
      ensures r == FetchWord(Memory(), addr, n)
    {
      hide Clear, Lazy, Cleared;
      WordPages(Memory(), addr, n);
      var page := PageOf(addr);
      if page >= flags.Length {
        return Err(OutOfBound(addr));
      }
      if !flags[page].executable {
        return Err(WriteOnExecutable(page));
      }
      CheckMemory(page);
      if OffsetOf(addr) + n > PAGE {
        if page + 1 >= flags.Length {
          return Err(OutOfBound(Wrap(addr + n)));
        }
        if !flags[page + 1].executable {
          return Err(WriteOnExecutable(page + 1));
        }
        CheckMemory(page + 1);
      }
      ClearedWord(memory[..], frames[..], Memory(), addr, n);
      LazySlice(memory[..], frames[..], addr, n);
      return Ok(LittleEndian(Slice(memory[..], addr, n)));
    }

    // ---------------------------------------------------------------- compiled loads and stores

    /**
     The read check of compiled code. It skips everything when the whole word, and the byte after it, lie in the
     frame read last. The second frame is marked with whatever is left in the scratch register: one, or the low
     byte of the end address, which is never zero when the word crosses into another frame.
     */
    method CheckRead(addr: U64, n: nat) returns (error: Option<Error>)
      requires Valid() && Shortcuts() && 0 < n <= 8
      modifies this`lastReadFrame, memory, frames
      ensures Valid() && Shortcuts() && Bytes() == old(Bytes())
      ensures error == CheckNoOverflow(addr, n, memory.Length)
      ensures error.None? ==> Cleared(frames[..], addr, addr + n)
    {
      hide Lazy, FrameOf;
      var frame := FrameOf(addr);
      if frame == lastReadFrame && frame == FrameOf(Wrap(addr + n)) {
        FrameBounds(addr);
        FrameBounds(addr + n);
        FrameMonotone(addr + n - 1, addr + n);
        FrameMonotone(addr, addr + n - 1);
        return None;
      }
      error := CheckReadFrames(addr, n);
    }

    method CheckReadFrames(addr: U64, n: nat) returns (error: Option<Error>)
      requires Valid() && Shortcuts() && 0 < n <= 8
      modifies this`lastReadFrame, memory, frames
      ensures Valid() && Shortcuts() && Bytes() == old(Bytes())
      ensures error == CheckNoOverflow(addr, n, memory.Length)
      ensures error.None? ==> Cleared(frames[..], addr, addr + n)
    {
      hide Clear, Lazy, FrameOf;
      if addr >= memory.Length {
        return Some(OutOfBound(addr));
      }
      var scratch := Wrap(addr + n);
      if scratch > memory.Length {
        return Some(OutOfBound(scratch));
      }
      var frame := FrameOf(addr);
      FrameExists(memory[..], frames[..], addr);
      lastReadFrame := frame;
      if frames[frame] == 0 {
        scratch := 1;
        ClearFrame(frame, 1);
      }
      var last := FrameOf(addr + n - 1);
      FrameExists(memory[..], frames[..], addr + n - 1);
      if frames[last] == 0 {
        CrossingMark(addr, n);
        ClearFrame(last, scratch % 256);
      }
      CrossingFrames(addr, n);
      return None;
    }

    /** The page exists and may be written. */
    ghost predicate OpensPage(addr: U64)
      reads flags
    {
      PageOf(addr) < flags.Length && !flags[PageOf(addr)].executable
    }

    /** The last write was to this page, and the word and the byte after it lie in it. */
    predicate SkipsCheck(addr: U64, n: nat)
      reads this
    {
      PageOf(addr) == lastWritePage == PageOf(Wrap(addr + n))
    }

    /**
     The write check of compiled code. The page is recorded before it has been checked: after a fault the shortcuts
     hold if and only if it was the second page that faulted. The fast path looks at the recorded page alone.
     */
    method CheckWrite(addr: U64, n: nat) returns (error: Option<Error>)
      requires Valid() && ReadShortcut() && 0 < n <= 8
      modifies this`lastWritePage, memory, flags, frames
      ensures Valid() && ReadShortcut() && Bytes() == old(Bytes())
      ensures old(SkipsCheck(addr, n)) ==> error.None? && Memory() == old(Memory()) && lastWritePage == old(lastWritePage)
      ensures old(Shortcuts() || !SkipsCheck(addr, n)) ==>
                && error == StoreWordError(old(Memory()), addr, n)
                && lastWritePage == PageOf(addr)
                && flags[..] == StoreWordFlags(old(Memory()), addr, n)
                && (error.None? ==> InRange(Memory(), addr, n) && Cleared(frames[..], addr, addr + n))
                && (Shortcuts() <==> old(OpensPage(addr)))
    {
      hide Lazy, Cleared, PageOf, OffsetOf, LastPage;
      var page := PageOf(addr);
      if page == lastWritePage && page == PageOf(Wrap(addr + n)) {
        if Shortcuts() {
          WordPages(Memory(), addr, n);
          AddressParts(addr);
          AddressParts(Wrap(addr + n));
          ClearedWord(memory[..], frames[..], Memory(), addr, n);
          assert flags[..] == Dirtied(flags[..], page);
        }
        return None;
      }
      error := CheckWritePages(addr, n);
    }

    method CheckWritePages(addr: U64, n: nat) returns (error: Option<Error>)
      requires Valid() && ReadShortcut() && 0 < n <= 8
      modifies this`lastWritePage, memory, flags, frames
      ensures Valid() && ReadShortcut() && Bytes() == old(Bytes())
      ensures error == StoreWordError(old(Memory()), addr, n)
      ensures lastWritePage == PageOf(addr)
      ensures flags[..] == StoreWordFlags(old(Memory()), addr, n)
      ensures error.None? ==> InRange(Memory(), addr, n) && Cleared(frames[..], addr, addr + n)
      ensures Shortcuts() <==> old(OpensPage(addr))
    {
      hide Lazy, Cleared, PageOf, OffsetOf, LastPage;
      WordPages(Memory(), addr, n);
      AddressParts(addr);
      var page := PageOf(addr);
      lastWritePage := page;
      if page >= flags.Length {
        return Some(OutOfBound(addr));
      }
      error := TouchPage(page);
      if error.Some? {
        return;
      }
      if addr + n > (page + 1) * PAGE {
        if page + 1 >= flags.Length {
          return Some(OutOfBound(Wrap(addr + n)));
        }
        error := TouchPage(page + 1);
        if error.Some? {
          return;
        }
      }
      ClearedWord(memory[..], frames[..], Memory(), addr, n);
      return None;
    }

    /** The checks compiled code makes on one page of a store. */
    method TouchPage(page: nat) returns (error: Option<Error>)
      requires Valid() && page < flags.Length
      modifies memory, flags, frames
      ensures Valid() && Bytes() == old(Bytes()) && Grown(old(frames[..]), frames[..])
      ensures error == if old(flags[page].executable) then Some(WriteOnExecutable(page)) else None
      ensures flags[..] == if error.Some? then old(flags[..]) else Dirtied(old(flags[..]), page)
      ensures error.None? ==> FrameOfPage(page) < frames.Length && frames[FrameOfPage(page)] != 0
    {
      hide Clear, Lazy;
      if flags[page].executable {
        return Some(WriteOnExecutable(page));
      }
      flags[page] := flags[page].Or(DIRTY);
      assert flags[..] == Dirtied(old(flags[..]), page);
      CheckMemory(page);
      return None;
    }

    method Read(addr: U64, n: nat) returns (r: Result<nat>)
      requires Valid() && Shortcuts() && 0 < n <= 8
      modifies this`lastReadFrame, memory, frames
      ensures Valid() && Shortcuts() && Memory() == old(Memory())
      ensures r == PagedMemory.Load(Memory(), addr, n)
    {
      hide Lazy, Cleared, Shortcuts;
      var error := CheckRead(addr, n);
      if error.Some? {
        return Err(error.value);
      }
      LazySlice(memory[..], frames[..], addr, n);
      return Ok(LittleEndian(Slice(memory[..], addr, n)));
    }

    method Write(addr: U64, n: nat, value: U64) returns (error: Option<Error>)
      requires Valid() && Shortcuts() && 0 < n <= 8
      modifies this`lastWritePage, memory, flags, frames
      ensures Valid() && Outcome(Memory(), error) == StoreWord(old(Memory()), addr, n, value)
      ensures (Shortcuts() <==> old(OpensPage(addr))) && (error.None? ==> Shortcuts())
    {
      hide Lazy, Cleared, Mark, PagedMemory.Write;
      error := CheckWrite(addr, n);
      if error.None? {
        StoreWordMarks(old(Memory()), addr, n);
        Copy(addr, ToLittleEndian(value, n));
      }
    }
  }

  /** After a fault at an executable page the next checks of stores inside that page are skipped. */
  method FaultThenCheck(core: AsmMemory, addr: U64, n: nat, later: U64, k: nat) returns (first: Option<Error>, second: Option<Error>)
    requires core.Valid() && core.Shortcuts() && 0 < n <= 8 && 0 < k <= 8
    modifies core`lastWritePage, core.memory, core.flags, core.frames
    ensures first == Some(WriteOnExecutable(PageOf(addr))) && PageOf(later) == PageOf(addr) == PageOf(Wrap(later + k)) ==>
              second.None? && StoreWordError(core.Memory(), later, k) == first
  {
    first := core.CheckWrite(addr, n);
    second := core.CheckWrite(later, k);
  }

  /** A word that ends in another frame than it starts in ends a few bytes into it. */
  lemma {:induction false} CrossingMark(addr: nat, n: nat)
    requires 0 < n <= 8 && FrameOf(addr) != FrameOf(addr + n - 1)
    ensures (addr + n) % 256 != 0
  {
  }

  lemma {:induction false} CrossingFrames(addr: nat, n: nat)
    requires 0 < n <= 8
    ensures FrameOf(addr) <= FrameOf(addr + n - 1) <= FrameOf(addr) + 1
  {
  }

  /** Flags may be set before or after the pages are filled. */
  lemma {:induction false} FlagsAfterFilling(m: Memory, addr: U64, size: U64, f: Flags, image: seq<Byte>)
    requires addr % PAGE == 0 && size % PAGE == 0 && InRange(m, addr, size) && |image| == size
    ensures var first, last := PageOf(addr), PageOf(addr + size) - 1;
            var filled := if size == 0 then m else Put(m, addr, image);
            var marked: Memory := m.(flags := Mark(m.flags, first, last, f));
            filled.(flags := Mark(filled.flags, first, last, f)) == if size == 0 then marked else Put(marked, addr, image)
  {
  }
}
