/**
 What the memory operations and the fetch mean (src/memory/mod.rs, src/memory/wxorx.rs, src/decoder.rs): laws over bytes,
 addresses and page flags.
 */
module MemoryLaws {
  import opened Words
  import opened PagedMemory
  import opened Instructions
  import opened Machine
  import opened Decoders
  import opened Tracking

  // ---------------------------------------------------------------- pages and flags

  /** A flag that was set or cleared is found so; no other flag and no byte changes. A page that does not exist changes nothing. */
  lemma {:induction false} FlagLaw(m: Memory, page: U64, f: Flags)
    ensures var marked, cleared := SetFlag(m, page, f), ClearFlag(m, page, f);
            if page * PAGE >= |m.bytes|
            then marked.error.Some? && cleared.error.Some? && marked.mem == m == cleared.mem && FetchFlag(m, page).Err?
            else && FetchFlag(m, page).Ok? && marked.error.None? && cleared.error.None?
                 && FetchFlag(marked.mem, page) == Ok(FetchFlag(m, page).value.Or(f))
                 && FetchFlag(cleared.mem, page) == Ok(FetchFlag(m, page).value.AndNot(f))
                 && ClearFlag(marked.mem, page, f).mem == cleared.mem && SetFlag(cleared.mem, page, f).mem == marked.mem
                 && (forall p: U64 :: p != page ==> FetchFlag(marked.mem, p) == FetchFlag(m, p) == FetchFlag(cleared.mem, p))
                 && marked.mem == m.(flags := marked.mem.flags) && cleared.mem == m.(flags := cleared.mem.flags)
  {
    if page < |m.flags| {
      var marked, cleared := SetFlag(m, page, f).mem, ClearFlag(m, page, f).mem;
      assert ClearFlag(marked, page, f).mem.flags == cleared.flags && SetFlag(cleared, page, f).mem.flags == marked.flags;
    }
  }

  /** The range holds zeros but for the source from its offset on; bytes outside it are as before. */
  predicate Imaged(before: seq<Byte>, after: seq<Byte>, addr: nat, size: nat, source: seq<Byte>, offset: nat) {
    && |after| == |before|
    && forall a :: 0 <= a < |before| ==>
         if addr <= a < addr + size
         then after[a] == if 0 <= a - addr - offset < |source| then source[a - addr - offset] else 0
         else after[a] == before[a]
  }

  /**
   `init_pages` succeeds exactly on whole pages that exist, with an offset inside them, none of them frozen. Then they
   hold zeros but for the source from its offset on, have the new flags and are dirty; all else is as it was.
   */
  lemma {:induction false} InitPagesLaw(m: Memory, addr: U64, size: U64, f: Flags, source: seq<Byte>, offset: U64)
    ensures var o := InitPages(m, addr, size, f, source, offset);
            && (o.error.None? <==>
                  && addr % PAGE == 0 && size % PAGE == 0 && InRange(m, addr, size) && offset <= size
                  && forall p :: 0 <= p < |m.flags| && Touches(p, addr, size) ==> !m.flags[p].freezed)
            && (o.error.None? ==>
                  && |o.mem.flags| == |m.flags| && |o.mem.bytes| == |m.bytes| && o.mem.lr == m.lr
                  && (forall p :: 0 <= p < |m.flags| ==>
                        o.mem.flags[p] == if Touches(p, addr, size) then m.flags[p].Or(f).Or(DIRTY) else m.flags[p])
                  && Imaged(m.bytes, o.mem.bytes, addr, size, source, offset))
  {
    hide FirstFreezed, Mark, Touches, Write, Image, Imaged;
    if InitError(m, addr, size, offset).None? {
      PagesOfRange(addr, size);
      forall p | 0 <= p < |m.flags| ensures Touches(p, addr, size) <==> PageOf(addr) <= p <= PageOf(addr + size) - 1 {
        WholeTouched(p, addr, size);
      }
      if FirstFreezed(m.flags, PageOf(addr), PageOf(addr + size) - 1).None? { InitDone(m, addr, size, f, source, offset); }
    }
  }

  lemma {:induction false} PagesOfRange(addr: nat, size: nat)
    requires addr % PAGE == 0 && size % PAGE == 0
    ensures PageOf(addr) * PAGE == addr && PageOf(addr + size) * PAGE == addr + size
    ensures size > 0 ==> LastPage(addr, size) == PageOf(addr + size) - 1
  {
  }

  lemma {:induction false} WholeTouched(page: nat, addr: nat, size: nat)
    requires addr % PAGE == 0 && size % PAGE == 0
    ensures Touches(page, addr, size) <==> PageOf(addr) <= page <= PageOf(addr + size) - 1
  {
    hide Touches;
    PagesOfRange(addr, size);
    if size > 0 { TouchedPages(page, addr, size); } else { assert !Touches(page, addr, size) by { NothingTouched(page, addr); } }
  }

  lemma {:induction false} InitDone(m: Memory, addr: U64, size: U64, f: Flags, source: seq<Byte>, offset: U64)
    requires InitError(m, addr, size, offset).None? && FirstFreezed(m.flags, PageOf(addr), PageOf(addr + size) - 1).None?
    ensures var o, first, last := InitPages(m, addr, size, f, source, offset), PageOf(addr), PageOf(addr + size) - 1;
            && o.error.None? && o.mem.lr == m.lr && |o.mem.flags| == |m.flags| && |o.mem.bytes| == |m.bytes|
            && (forall p :: 0 <= p < |m.flags| ==> o.mem.flags[p] == if first <= p <= last then m.flags[p].Or(f).Or(DIRTY) else m.flags[p])
            && Imaged(m.bytes, o.mem.bytes, addr, size, source, offset)
  {
    hide FirstFreezed;
    PagesOfRange(addr, size);
  }

  // ---------------------------------------------------------------- loading a program

  /** What one segment asks of a memory. */
  predicate Placed(m: Memory, action: LoadingAction) {
    && action.addr % PAGE == 0 && action.size % PAGE == 0 && InRange(m, action.addr, action.size)
    && action.offsetFromAddr <= action.size
    && forall p :: 0 <= p < |m.flags| && Touches(p, action.addr, action.size) ==> !m.flags[p].freezed
  }

  /** The flags of a page that belongs to the segment. */
  ghost predicate HasFlags(m: Memory, m': Memory, action: LoadingAction, p: nat) {
    p < |m.flags| == |m'.flags| && Touches(p, action.addr, action.size) ==> m'.flags[p] == m.flags[p].Or(action.flags).Or(DIRTY)
  }

  /** No segment from number `i` on has the page. */
  ghost predicate Unclaimed(actions: seq<LoadingAction>, i: nat, p: nat) {
    forall j :: i <= j < |actions| ==> !Touches(p, actions[j].addr, actions[j].size)
  }

  /**
   Loading segments that lie apart succeeds exactly if each of them is placed well in the memory as it was. Then every
   page of a segment has its flags and is dirty, and the others are as before.
   */
  lemma {:induction false} LoadLaw(m: Memory, program: seq<Byte>, actions: seq<LoadingAction>, i: nat)
    requires i <= |actions| && (forall j :: 0 <= j < |actions| ==> WellFormed(actions[j], program)) && AllApart(actions)
    ensures var o := LoadFrom(m, program, actions, i);
            && (o.error.None? <==> forall j :: i <= j < |actions| ==> Placed(m, actions[j]))
            && (o.error.None? ==>
                  && |o.mem.flags| == |m.flags|
                  && (forall j, p :: i <= j < |actions| && 0 <= p < |m.flags| ==> HasFlags(m, o.mem, actions[j], p))
                  && (forall p :: 0 <= p < |m.flags| && Unclaimed(actions, i, p) ==>
                        o.mem.flags[p] == m.flags[p] && PageBytes(o.mem, p) == PageBytes(m, p)))
    decreases |actions| - i
  {
    hide WellFormed, InitPages, Placed, Touches, PageBytes, Imaged, Apart;
    if i < |actions| {
      var a := actions[i];
      SegmentLaw(m, program, a);
      var o := LoadSegment(m, a, program);
      if o.error.None? {
        LoadLaw(o.mem, program, actions, i + 1);
        forall j | i < j < |actions| ensures Placed(o.mem, actions[j]) <==> Placed(m, actions[j]) {
          assert Apart(a, actions[j]);
          StillPlaced(m, o.mem, a, actions[j]);
        }
        var done := LoadFrom(o.mem, program, actions, i + 1);
        if done.error.None? {
          forall j, p | i <= j < |actions| && 0 <= p < |m.flags| ensures HasFlags(m, done.mem, actions[j], p) {
            FlagsOfPage(m, o.mem, done.mem, actions, i, j, p);
          }
        }
      }
    }
  }

  lemma {:induction false} SegmentLaw(m: Memory, program: seq<Byte>, a: LoadingAction)
    requires WellFormed(a, program)
    ensures var o := LoadSegment(m, a, program);
            && (o.error.None? <==> Placed(m, a))
            && (o.error.None? ==>
                  && |o.mem.flags| == |m.flags|
                  && (forall p :: 0 <= p < |m.flags| ==> HasFlags(m, o.mem, a, p))
                  && (forall p :: 0 <= p < |m.flags| && !Touches(p, a.addr, a.size) ==>
                        o.mem.flags[p] == m.flags[p] && PageBytes(o.mem, p) == PageBytes(m, p)))
  {
    hide InitPages, Touches, Imaged;
    var source := program[a.sourceStart..a.sourceEnd];
    InitPagesLaw(m, a.addr, a.size, a.flags, source, a.offsetFromAddr);
    var m' := LoadSegment(m, a, program).mem;
    if Placed(m, a) {
      forall p | 0 <= p < |m.flags| && !Touches(p, a.addr, a.size) ensures PageBytes(m', p) == PageBytes(m, p) {
        Untouched(m, m', a.addr, a.size, source, a.offsetFromAddr, p);
      }
    }
  }

  lemma {:induction false} Untouched(m: Memory, m': Memory, addr: nat, size: nat, source: seq<Byte>, offset: nat, p: nat)
    requires p < |m.flags| == |m'.flags| && Imaged(m.bytes, m'.bytes, addr, size, source, offset) && !Touches(p, addr, size)
    ensures PageBytes(m', p) == PageBytes(m, p)
  {
    PageFits(m, p);
  }

  lemma {:induction false} StillPlaced(m: Memory, m': Memory, a: LoadingAction, b: LoadingAction)
    requires Placed(m, a) && Apart(a, b) && |m'.flags| == |m.flags|
    requires forall p :: 0 <= p < |m.flags| && !Touches(p, a.addr, a.size) ==> m'.flags[p] == m.flags[p]
    ensures Placed(m', b) <==> Placed(m, b)
  {
    hide Touches;
    if b.addr % PAGE == 0 && b.size % PAGE == 0 {
      forall p | 0 <= p < |m.flags| && Touches(p, b.addr, b.size) ensures m'.flags[p] == m.flags[p] {
        OneOwner(p, a, b);
      }
    }
  }

  lemma {:induction false} OneOwner(p: nat, a: LoadingAction, b: LoadingAction)
    requires a.addr % PAGE == 0 && a.size % PAGE == 0 && b.addr % PAGE == 0 && b.size % PAGE == 0 && Apart(a, b)
    ensures !(Touches(p, a.addr, a.size) && Touches(p, b.addr, b.size))
  {
    hide Touches;
    WholeTouched(p, a.addr, a.size);
    WholeTouched(p, b.addr, b.size);
    PagesOfRange(a.addr, a.size);
    PagesOfRange(b.addr, b.size);
  }

  lemma {:induction false} FlagsOfPage(
      m: Memory, m1: Memory, m2: Memory, actions: seq<LoadingAction>, i: nat, j: nat, p: nat)
    requires i <= j < |actions| && p < |m.flags| == |m1.flags| == |m2.flags| && AllApart(actions)
    requires Placed(m, actions[i]) && forall k :: i < k < |actions| ==> Placed(m1, actions[k])
    requires HasFlags(m, m1, actions[i], p)
    requires !Touches(p, actions[i].addr, actions[i].size) ==> m1.flags[p] == m.flags[p]
    requires forall k :: i < k < |actions| ==> HasFlags(m1, m2, actions[k], p)
    requires Unclaimed(actions, i + 1, p) ==> m2.flags[p] == m1.flags[p]
    ensures HasFlags(m, m2, actions[j], p)
  {
    hide Touches, Apart;
    if Touches(p, actions[j].addr, actions[j].size) {
      if j == i {
        forall k | i < k < |actions| ensures !Touches(p, actions[k].addr, actions[k].size) {
          assert Apart(actions[i], actions[k]) && Placed(m1, actions[k]);
          OneOwner(p, actions[i], actions[k]);
        }
      } else {
        assert Apart(actions[i], actions[j]) && Placed(m1, actions[j]);
        OneOwner(p, actions[i], actions[j]);
      }
    }
  }

  // ---------------------------------------------------------------- stores and loads

  /** A store of bytes goes through exactly where they may be written; then they are loaded again, and only their pages are dirtied. */
  lemma {:induction false} StoreBytesLaw(m: Memory, addr: U64, data: seq<Byte>)
    requires |data| < TWO63
    ensures var o := StoreBytes(m, addr, data);
            && (o.error.None? <==> Writable(m, addr, |data|)) && (o.error.Some? ==> o.mem == m)
            && (o.error.None? ==> LoadBytes(o.mem, addr, |data|) == Ok(data) && SameOutside(m.bytes, o.mem.bytes, addr, addr + |data|))
            && |o.mem.flags| == |m.flags| && o.mem.lr == m.lr
            && (o.error.None? ==> forall p :: 0 <= p < |m.flags| ==>
                  o.mem.flags[p] == if Touches(p, addr, |data|) then m.flags[p].Or(DIRTY) else m.flags[p])
    ensures forall value: Byte :: data == Repeat(|data|, value) ==> StoreByte(m, addr, |data|, value) == StoreBytes(m, addr, data)
  {
    hide StoreError, Writable, Touches;
    if data != [] {
      StoreErrorExact(m, addr, |data|);
      if StoreError(m, addr, |data|).None? {
        assert InRange(m, addr, |data|) by { WritableFits(m, addr, |data|); }
        var o := StoreBytes(m, addr, data);
        CheckNoOverflowExact(m, addr, |data|);
        assert Slice(o.mem.bytes, addr, |data|) == data;
        forall p | 0 <= p < |m.flags|
          ensures o.mem.flags[p] == if Touches(p, addr, |data|) then m.flags[p].Or(DIRTY) else m.flags[p]
        {
          TouchedPages(p, addr, |data|);
        }
      }
    } else {
      assert Writable(m, addr, 0) by { WritableNothing(m, addr); }
      forall p | 0 <= p < |m.flags| ensures !Touches(p, addr, 0) { NothingTouched(p, addr); }
    }
  }

  lemma {:induction false} WritableFits(m: Memory, addr: nat, n: nat)
    requires Writable(m, addr, n) && n > 0
    ensures InRange(m, addr, n)
  {
  }

  lemma {:induction false} WritableNothing(m: Memory, addr: nat)
    ensures Writable(m, addr, 0)
  {
  }

  // ---------------------------------------------------------------- fetching

  predicate Runnable(m: Memory, addr: nat) {
    addr < |m.bytes| && PageOf(addr) < |m.flags| && m.flags[PageOf(addr)].executable
  }

  function Half(m: Memory, addr: nat): nat
    requires addr + 2 <= |m.bytes|
  {
    var low: int, high: int := m.bytes[addr], m.bytes[addr + 1];
    low + 256 * high
  }

  lemma {:induction false} HalfFits(m: Memory, addr: U64)
    requires addr % 2 == 0 && addr < |m.bytes|
    ensures addr + 2 <= |m.bytes| && PageOf(addr) == LastPage(addr, 2) < |m.flags|
  {
    AddressParts(addr);
    EvenHalf(PageOf(addr), OffsetOf(addr));
    PartsOfAddress(PageOf(addr), OffsetOf(addr) + 1);
    hide PageOf, OffsetOf;
    assert PageOf(addr) * PAGE < |m.flags| * PAGE;
  }

  lemma {:induction false} EvenHalf(page: nat, offset: nat)
    requires offset < PAGE && (page * PAGE + offset) % 2 == 0
    ensures offset + 1 < PAGE
  {
    assert (page * PAGE + offset) % 2 == offset % 2;
  }

  lemma {:induction false} HalfLoads(m: Memory, addr: U64)
    requires addr % 2 == 0
    ensures if addr >= |m.bytes| then ExecuteLoad(m, addr, 2) == Err(OutOfBound(addr))
            else addr + 2 <= |m.bytes| && ExecuteLoad(m, addr, 2)
                 == if Runnable(m, addr) then Ok(Half(m, addr)) else Err(WriteOnExecutable(PageOf(addr)))
  {
    hide PageOf;
    if addr < |m.bytes| {
      HalfFits(m, addr);
      var s := Slice(m.bytes, addr, 2);
      assert s[1..][1..] == [] && s[1..][0] == s[1] && LittleEndian(s[1..]) == s[1] + 256 * LittleEndian(s[1..][1..]);
    }
  }

  /**
   What is fetched at an even address: a halfword, and a second one if the low two bits of the first are both set. Each
   has to exist and be executable.
   */
  lemma {:induction false} FetchLaw(m: Memory, pc: U64)
    requires pc % 2 == 0 && pc < |m.bytes|
    ensures pc + 2 <= |m.bytes| && DecodeBits(m, pc) ==
            if !Runnable(m, pc) then Err(WriteOnExecutable(PageOf(pc)))
            else if Half(m, pc) % 4 != 3 then Ok(Half(m, pc))
            else if pc + 4 > |m.bytes| then Err(OutOfBound(pc + 2))
            else if !Runnable(m, pc + 2) then Err(WriteOnExecutable(PageOf(pc + 2)))
            else Ok(Half(m, pc) + 0x10000 * Half(m, pc + 2))
  {
    hide DecodeBits, ExecuteLoad, Runnable, Half, PageOf;
    FastPathAgrees(m, pc);
    HalfLoads(m, pc);
    HalfLoads(m, pc + 2);
  }

  /** The first factory that knows the bits decides. */
  lemma {:induction false} FirstMatchLaw(factories: seq<U32 -> Option<RawInst>>, bits: U32, k: nat)
    requires k <= |factories| && (forall j :: 0 <= j < k ==> factories[j](bits).None?)
    ensures k == |factories| ==> FirstMatch(factories, bits).None?
    ensures k < |factories| && factories[k](bits).Some? ==> FirstMatch(factories, bits) == factories[k](bits)
    decreases k
  {
    if k > 0 {
      assert forall j :: 0 <= j < k - 1 ==> factories[1..][j] == factories[j + 1];
      FirstMatchLaw(factories[1..], bits, k - 1);
    }
  }

  /** `decode_raw`: the instruction of the first factory that knows the fetched bits, or which address or bits are wrong. */
  lemma {:induction false} DecodeLaw(env: Env, m: Memory, pc: U64, bits: U32, k: nat)
    requires k <= |env.factories| && (forall j :: 0 <= j < k ==> env.factories[j](bits).None?)
    ensures pc >= |m.bytes| ==> DecodeRaw(env, m, pc) == Err(OutOfBound(pc))
    ensures pc < |m.bytes| && DecodeBits(m, pc).Err? ==> DecodeRaw(env, m, pc) == Err(DecodeBits(m, pc).error)
    ensures pc < |m.bytes| && DecodeBits(m, pc) == Ok(bits) && k == |env.factories| ==>
              DecodeRaw(env, m, pc) == Err(InvalidInstruction(pc, bits))
    ensures pc < |m.bytes| && DecodeBits(m, pc) == Ok(bits) && k < |env.factories| && env.factories[k](bits).Some? ==>
              DecodeRaw(env, m, pc) == Ok(env.factories[k](bits).value)
  {
    hide DecodeBits, FirstMatch;
    FirstMatchLaw(env.factories, bits, k);
  }
}
