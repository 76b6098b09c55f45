/**
 The lazily zeroed memory of the assembly core, as a value (src/machine/asm/mod.rs):
 a byte array with arbitrary contents, and one byte per frame that is zero until the
 frame has been cleared. A byte in an uncleared frame counts as zero.
 */
module LazyFrames {
  import opened Words
  import opened PagedMemory

  const FRAME: int := 262144
  const FRAME_PAGES: int := 64

  function FrameOf(addr: nat): nat { addr / FRAME }

  function FrameOfPage(page: nat): nat { page / FRAME_PAGES }

  /** The end of the page that holds the last byte before `end`. */
  function PageEnd(end: nat): nat
    requires end > 0
  {
    (PageOf(end - 1) + 1) * PAGE
  }

  lemma {:induction false} FrameBounds(addr: nat)
    ensures FrameOf(addr) * FRAME <= addr < (FrameOf(addr) + 1) * FRAME
  {
  }

  lemma {:induction false} FrameViaPage(addr: nat)
    ensures FrameOfPage(PageOf(addr)) == FrameOf(addr)
  {
  }

  lemma {:induction false} FrameMonotone(a: nat, b: nat)
    requires a <= b
    ensures FrameOf(a) <= FrameOf(b)
  {
  }

  predicate Shaped(memory: seq<Byte>, frames: seq<Byte>) {
    |memory| == |frames| * FRAME
  }

  lemma {:induction false} FrameExists(memory: seq<Byte>, frames: seq<Byte>, a: nat)
    requires Shaped(memory, frames) && a < |memory|
    ensures FrameOf(a) < |frames|
  {
  }

  function ByteOf(memory: seq<Byte>, frames: seq<Byte>, a: nat): Byte
    requires Shaped(memory, frames) && a < |memory|
  {
    FrameExists(memory, frames, a);
    if frames[FrameOf(a)] != 0 then memory[a] else 0
  }

  /** The bytes a program can observe. */
  function Lazy(memory: seq<Byte>, frames: seq<Byte>): (r: seq<Byte>)
    requires Shaped(memory, frames)
    ensures |r| == |memory|
  {
    seq(|memory|, a requires 0 <= a < |memory| => ByteOf(memory, frames, a))
  }

  lemma {:induction false} AllUncleared(memory: seq<Byte>, frames: seq<Byte>)
    requires Shaped(memory, frames) && forall f :: 0 <= f < |frames| ==> frames[f] == 0
    ensures Lazy(memory, frames) == Zeros(|memory|)
  {
  }

  /** Every frame that was cleared still is. */
  predicate Grown(frames: seq<Byte>, later: seq<Byte>) {
    |later| == |frames| && forall f :: 0 <= f < |frames| && frames[f] != 0 ==> later[f] != 0
  }

  /** All frames of the byte range have been cleared. */
  predicate Cleared(frames: seq<Byte>, addr: nat, end: nat) {
    addr < end ==> FrameOf(end - 1) < |frames|
                   && forall f :: FrameOf(addr) <= f <= FrameOf(end - 1) ==> frames[f] != 0
  }

  function ZeroFrame(memory: seq<Byte>, frame: nat): (r: seq<Byte>)
    requires (frame + 1) * FRAME <= |memory|
    ensures |r| == |memory|
  {
    Write(memory, frame * FRAME, Zeros(FRAME))
  }

  /** Clearing a frame and marking it, with whatever nonzero byte, changes no observable byte. */
  lemma {:induction false} ClearingIsInvisible(memory: seq<Byte>, frames: seq<Byte>, frame: nat, mark: Byte)
    requires Shaped(memory, frames) && frame < |frames| && frames[frame] == 0 && mark != 0
    ensures Lazy(ZeroFrame(memory, frame), frames[frame := mark]) == Lazy(memory, frames)
  {
  }

  lemma {:induction false} LazyWrite(memory: seq<Byte>, frames: seq<Byte>, addr: nat, data: seq<Byte>)
    requires Shaped(memory, frames) && addr + |data| <= |memory| && Cleared(frames, addr, addr + |data|)
    ensures Lazy(Write(memory, addr, data), frames) == Write(Lazy(memory, frames), addr, data)
  {
  }

  lemma {:induction false} LazySlice(memory: seq<Byte>, frames: seq<Byte>, addr: nat, size: nat)
    requires Shaped(memory, frames) && addr + size <= |memory| && Cleared(frames, addr, addr + size)
    ensures Slice(memory, addr, size) == Slice(Lazy(memory, frames), addr, size)
  {
  }

  /** The frames of the pages `first..until` have been cleared. */
  predicate PagesCleared(frames: seq<Byte>, first: nat, until: nat) {
    forall page :: first <= page < until && FrameOfPage(page) < |frames| ==> frames[FrameOfPage(page)] != 0
  }

  lemma {:induction false} NoPages(frames: seq<Byte>, first: nat)
    ensures PagesCleared(frames, first, first)
  {
  }

  lemma {:induction false} PagesClearedNext(frames: seq<Byte>, later: seq<Byte>, first: nat, page: nat)
    requires PagesCleared(frames, first, page) && Grown(frames, later)
    requires FrameOfPage(page) < |later| && later[FrameOfPage(page)] != 0
    ensures PagesCleared(later, first, page + 1)
  {
  }

  lemma {:induction false} ClearedPages(memory: seq<Byte>, frames: seq<Byte>, addr: nat, end: nat)
    requires Shaped(memory, frames) && addr < end <= |memory| && PagesCleared(frames, PageOf(addr), PageOf(end - 1) + 1)
    ensures Cleared(frames, addr, end)
  {
    FrameExists(memory, frames, end - 1);
    forall f | FrameOf(addr) <= f <= FrameOf(end - 1) ensures frames[f] != 0 {
      FrameViaPage(addr);
      FrameViaPage(end - 1);
      var page := if f == FrameOf(addr) then PageOf(addr) else f * FRAME_PAGES;
      assert FrameOfPage(page) == f && PageOf(addr) <= page <= PageOf(end - 1);
    }
  }

  /** The frames marked by the page loop of `prepare_memory` up to, not including, `page`. */
  predicate MarkedUpTo(frames: seq<Byte>, later: seq<Byte>, first: nat, page: nat) {
    |later| == |frames|
    && forall f :: 0 <= f < |frames| ==>
         later[f] == if first < page && FrameOfPage(first) <= f <= FrameOfPage(page - 1) then 1 else frames[f]
  }

  lemma {:induction false} MarkedNext(frames: seq<Byte>, later: seq<Byte>, first: nat, page: nat)
    requires first <= page && FrameOfPage(page) < |frames| && MarkedUpTo(frames, later, first, page)
    ensures MarkedUpTo(frames, later[FrameOfPage(page) := 1], first, page + 1)
  {
  }

  /**
   Marking the frames of a range that is about to be written. The first frame needs clearing only
   if it starts before the range, the last only if it goes on after the range's last page: then
   nothing observable outside those pages changes. The rest of the last page is not protected.
   */
  lemma {:induction false} MarkingIsInvisibleOutside(
      memory: seq<Byte>, frames: seq<Byte>, later: seq<Byte>, addr: nat, end: nat)
    requires Shaped(memory, frames) && addr < end <= |memory|
    requires FrameOf(addr) * FRAME < addr ==> FrameOf(addr) < |frames| && frames[FrameOf(addr)] != 0
    requires PageEnd(end) < (FrameOf(end - 1) + 1) * FRAME ==> FrameOf(end - 1) < |frames| && frames[FrameOf(end - 1)] != 0
    requires MarkedUpTo(frames, later, PageOf(addr), PageOf(end - 1) + 1)
    ensures SameOutside(Lazy(memory, frames), Lazy(memory, later), addr, PageEnd(end))
    ensures Cleared(later, addr, end)
  {
    FrameViaPage(addr);
    FrameViaPage(end - 1);
    FrameExists(memory, frames, end - 1);
    assert PageOf(addr) <= PageOf(end - 1) && PageEnd(end) >= end;
    forall a | 0 <= a < |memory| && (a < addr || a >= PageEnd(end))
      ensures Lazy(memory, later)[a] == Lazy(memory, frames)[a]
    {
      FrameExists(memory, frames, a);
      FrameBounds(a);
      FrameBounds(addr);
      if a < addr { FrameMonotone(a, addr); } else { FrameMonotone(end - 1, a); }
    }
  }

  // ---------------------------------------------------------------- a whole store without checks

  datatype Lazily = Lazily(memory: seq<Byte>, frames: seq<Byte>)

  function Clear(l: Lazily, frame: nat, mark: Byte): (r: Lazily)
    requires Shaped(l.memory, l.frames) && frame < |l.frames|
    ensures Shaped(r.memory, r.frames) && |r.memory| == |l.memory|
  {
    if l.frames[frame] != 0 then l else Lazily(ZeroFrame(l.memory, frame), l.frames[frame := mark])
  }

  predicate StartsInside(addr: nat) { FrameOf(addr) * FRAME < addr }

  predicate EndsInside(end: nat)
    requires end > 0
  {
    PageEnd(end) < (FrameOf(end - 1) + 1) * FRAME
  }

  /** The first and the last frame of a range are cleared where its pages do not cover them. */
  function ClearEdges(l: Lazily, addr: nat, end: nat): (r: Lazily)
    requires Shaped(l.memory, l.frames) && addr < end <= |l.memory|
    ensures Shaped(r.memory, r.frames) && |r.memory| == |l.memory|
  {
    FrameExists(l.memory, l.frames, addr);
    FrameExists(l.memory, l.frames, end - 1);
    var l1 := if StartsInside(addr) then Clear(l, FrameOf(addr), 1) else l;
    if EndsInside(end) then Clear(l1, FrameOf(end - 1), 1) else l1
  }

  function MarkFrames(frames: seq<Byte>, addr: nat, end: nat): (r: seq<Byte>)
    requires addr < end
    ensures |r| == |frames|
  {
    seq(|frames|, f requires 0 <= f < |frames| => if FrameOf(addr) <= f <= FrameOf(end - 1) then 1 else frames[f])
  }

  lemma {:induction false} MarkedAll(frames: seq<Byte>, later: seq<Byte>, addr: nat, end: nat)
    requires addr < end && MarkedUpTo(frames, later, PageOf(addr), PageOf(end - 1) + 1)
    ensures later == MarkFrames(frames, addr, end)
  {
    FrameViaPage(addr);
    FrameViaPage(end - 1);
    assert PageOf(addr) <= PageOf(end - 1);
  }

  /** What a program observes after a store that clears the edges, marks the frames and copies the data. */
  function FastStored(l: Lazily, addr: nat, data: seq<Byte>): (r: seq<Byte>)
    requires Shaped(l.memory, l.frames) && data != [] && addr + |data| <= |l.memory|
    ensures |r| == |l.memory|
  {
    var edges := ClearEdges(l, addr, addr + |data|);
    Lazy(Write(edges.memory, addr, data), MarkFrames(edges.frames, addr, addr + |data|))
  }

  /** The rest of the last page is cleared, or there is none. */
  predicate NothingStale(frames: seq<Byte>, addr: nat, end: nat)
    requires addr < end <= |frames| * FRAME
  {
    FrameMonotone(addr, end - 1);
    FrameBounds(end - 1);
    || end % PAGE == 0
    || EndsInside(end)
    || frames[FrameOf(end - 1)] != 0
    || (FrameOf(addr) == FrameOf(end - 1) && StartsInside(addr))
  }

  lemma {:induction false} ClearedByte(l: Lazily, frame: nat, a: nat)
    requires Shaped(l.memory, l.frames) && frame < |l.frames| && a < |l.memory|
    ensures var r := Clear(l, frame, 1);
            && (FrameOf(a) != frame ==> r.memory[a] == l.memory[a])
            && FrameOf(a) < |l.frames|
            && (FrameOf(a) == frame ==> r.memory[a] == if l.frames[frame] != 0 then l.memory[a] else 0)
            && r.frames == l.frames[frame := if l.frames[frame] != 0 then l.frames[frame] else 1]
  {
    FrameExists(l.memory, l.frames, a);
    FrameBounds(a);
  }

  /** Whether the frame of a byte is cleared at the edges of a range. */
  predicate EdgeCleared(addr: nat, end: nat, frame: nat)
    requires addr < end
  {
    (StartsInside(addr) && frame == FrameOf(addr)) || (EndsInside(end) && frame == FrameOf(end - 1))
  }

  lemma {:induction false} EdgeByte(l: Lazily, addr: nat, end: nat, a: nat)
    requires Shaped(l.memory, l.frames) && addr < end <= |l.memory| && a < |l.memory|
    ensures var r := ClearEdges(l, addr, end);
            && FrameOf(a) < |l.frames| == |r.frames|
            && r.memory[a] == (if l.frames[FrameOf(a)] == 0 && EdgeCleared(addr, end, FrameOf(a)) then 0 else l.memory[a])
            && (r.frames[FrameOf(a)] != 0 <==> l.frames[FrameOf(a)] != 0 || EdgeCleared(addr, end, FrameOf(a)))
  {
    hide StartsInside, EndsInside, FrameOf;
    FrameExists(l.memory, l.frames, addr);
    FrameExists(l.memory, l.frames, end - 1);
    FrameExists(l.memory, l.frames, a);
    ClearedByte(l, FrameOf(addr), a);
    var l1 := if StartsInside(addr) then Clear(l, FrameOf(addr), 1) else l;
    ClearedByte(l1, FrameOf(end - 1), a);
  }

  /** One byte of such a store. */
  lemma {:induction false} FastStoredByte(l: Lazily, addr: nat, data: seq<Byte>, a: nat)
    requires Shaped(l.memory, l.frames) && data != [] && addr + |data| <= |l.memory| && a < |l.memory|
    ensures var end := addr + |data|;
            var stale := !NothingStale(l.frames, addr, end) && end <= a < PageEnd(end);
            FastStored(l, addr, data)[a] == if stale then l.memory[a] else Write(Lazy(l.memory, l.frames), addr, data)[a]
  {
    hide ClearEdges, StartsInside, EndsInside, FrameOf, PageEnd, Shaped;
    var end := addr + |data|;
    EdgeByte(l, addr, end, a);
    ByteShown(l, addr, end, a);
  }

  /** Outside the range a byte is unprotected only behind the range, in its last page. */
  lemma {:induction false} ByteShown(l: Lazily, addr: nat, end: nat, a: nat)
    requires Shaped(l.memory, l.frames) && addr < end <= |l.memory| && a < |l.memory|
    ensures FrameOf(a) < |l.frames|
    ensures var marked := FrameOf(addr) <= FrameOf(a) <= FrameOf(end - 1);
            var stale := !NothingStale(l.frames, addr, end) && end <= a < PageEnd(end);
            !(addr <= a < end) ==>
              (stale <==> marked && l.frames[FrameOf(a)] == 0 && !EdgeCleared(addr, end, FrameOf(a)))
    ensures addr <= a < end ==> FrameOf(addr) <= FrameOf(a) <= FrameOf(end - 1)
  {
    FrameExists(l.memory, l.frames, a);
    FrameBounds(a);
    FrameBounds(addr);
    FrameBounds(end - 1);
    if a < addr { FrameMonotone(a, addr); } else { FrameMonotone(addr, a); }
    if a < end { FrameMonotone(a, end - 1); } else { FrameMonotone(end - 1, a); }
    PageInFrame(end);
  }

  /** A page lies in one frame; a range that ends at a page's end has nothing behind it there. */
  lemma {:induction false} PageInFrame(end: nat)
    requires end > 0
    ensures end <= PageEnd(end) <= (FrameOf(end - 1) + 1) * FRAME && (end % PAGE == 0 <==> PageEnd(end) == end)
  {
    hide FrameOf, PageOf;
    var last: nat := end - 1;
    AddressParts(last);
    FrameViaPage(last);
    LastOfFrame(PageOf(last));
    EndsPage(PageOf(last), end);
  }

  lemma {:induction false} LastOfFrame(page: nat)
    ensures page + 1 <= (FrameOfPage(page) + 1) * FRAME_PAGES
  {
  }

  lemma {:induction false} EndsPage(page: nat, end: nat)
    requires page * PAGE < end <= (page + 1) * PAGE
    ensures end % PAGE == 0 <==> end == (page + 1) * PAGE
  {
    var rest := end - page * PAGE;
    if rest < PAGE { assert end % PAGE == rest; }
  }

  /**
   The store is a plain write if and only if nothing stale is left behind the range in its last page. For the
   contents at hand that is so when those bytes happen to be zero; for all contents, when the frame is cleared.
   */
  lemma {:induction false} FastStoreExact(l: Lazily, addr: nat, data: seq<Byte>)
    requires Shaped(l.memory, l.frames) && data != [] && addr + |data| <= |l.memory|
    ensures var end := addr + |data|;
            FastStored(l, addr, data) == Write(Lazy(l.memory, l.frames), addr, data)
            <==> NothingStale(l.frames, addr, end) || forall a :: end <= a < PageEnd(end) && a < |l.memory| ==> l.memory[a] == 0
  {
    hide NothingStale, PageEnd, FrameOf, FastStored, Lazy;
    var end := addr + |data|;
    var fast, plain := FastStored(l, addr, data), Write(Lazy(l.memory, l.frames), addr, data);
    forall a | 0 <= a < |l.memory|
      ensures fast[a] == if !NothingStale(l.frames, addr, end) && end <= a < PageEnd(end) then l.memory[a] else plain[a]
      ensures !NothingStale(l.frames, addr, end) && end <= a < PageEnd(end) ==> plain[a] == 0
    {
      FastStoredByte(l, addr, data, a);
      UnclearedTail(l, addr, end, a);
    }
  }

  lemma {:induction false} UnclearedTail(l: Lazily, addr: nat, end: nat, a: nat)
    requires Shaped(l.memory, l.frames) && addr < end <= |l.memory| && a < |l.memory|
    ensures !NothingStale(l.frames, addr, end) && end <= a < PageEnd(end) ==> Lazy(l.memory, l.frames)[a] == 0
  {
    hide NothingStale, PageEnd, FrameOf;
    ByteShown(l, addr, end, a);
  }

  /** The condition a caller can look at: whatever the allocator left behind, the store is a plain write. */
  lemma {:induction false} FastStoreSafe(frames: seq<Byte>, addr: nat, data: seq<Byte>)
    requires data != [] && addr + |data| <= |frames| * FRAME
    ensures (forall memory: seq<Byte> :: Shaped(memory, frames) ==>
               FastStored(Lazily(memory, frames), addr, data) == Write(Lazy(memory, frames), addr, data))
            <==> NothingStale(frames, addr, addr + |data|)
  {
    hide NothingStale, PageEnd, FrameOf, FastStored, Lazy;
    var end := addr + |data|;
    forall memory: seq<Byte> | Shaped(memory, frames) && NothingStale(frames, addr, end)
      ensures FastStored(Lazily(memory, frames), addr, data) == Write(Lazy(memory, frames), addr, data)
    {
      FastStoreExact(Lazily(memory, frames), addr, data);
    }
    if !NothingStale(frames, addr, end) {
      var ones := seq(|frames| * FRAME, i => 1);
      FastStoreExact(Lazily(ones, frames), addr, data);
      TailInside(frames, addr, end);
      assert ones[end] == 1 && Shaped(ones, frames);
    }
  }

  lemma {:induction false} TailInside(frames: seq<Byte>, addr: nat, end: nat)
    requires addr < end <= |frames| * FRAME && !NothingStale(frames, addr, end)
    ensures end < PageEnd(end) <= |frames| * FRAME
  {
    PageInFrame(end);
    FrameBounds(end - 1);
  }

  /** A store of all but the last byte of an uncleared frame shows what was there before. */
  lemma {:induction false} StaleByteShows() returns (l: Lazily, data: seq<Byte>)
    ensures Shaped(l.memory, l.frames) && data != [] && |data| <= |l.memory|
    ensures FastStored(l, 0, data) != Write(Lazy(l.memory, l.frames), 0, data)
  {
    hide FastStored, Lazy;
    l, data := Lazily(seq(FRAME, i => 1), [0]), Zeros(FRAME - 1);
    assert FrameOf(FRAME - 2) == 0 && PageEnd(FRAME - 1) == FRAME;
    FastStoreExact(l, 0, data);
    assert l.memory[FRAME - 1] == 1;
  }
}
